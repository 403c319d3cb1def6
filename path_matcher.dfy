/** The authorisation policy (local prefix -> allowed remote prefixes), the hierarchical
    prefix predicate that decides a breach, and the fold that fills the policy from the
    mapping sheet's cells. */
module PathMatcher {
  import opened JavaText

  type Table = map<string, set<string>>

  const LocalSeparator: char := '\\'
  const RemoteSeparator: char := '/'

  /** The table has a rule letting local prefix `l` send to remote prefix `r`. */
  predicate Permits(t: Table, l: string, r: string)
  {
    l in t && r in t[l]
  }

  /** The prefixes the breach check tries, in order: the first `i + 1` pieces of
      `path.split(sep)` joined again with `sep`. Each is a prefix of `path`. */
  function Prefixes(path: string, sep: char): (r: seq<string>)
    ensures |r| == |JavaSplit(path, sep)|
    ensures forall i :: 0 <= i < |r| ==> r[i] <= path
  {
    var parts := JavaSplit(path, sep);
    JavaSplitPrefixes(path, sep);
    seq(|parts|, i requires 0 <= i < |parts| => Join(parts[..i + 1], sep))
  }

  function LocalPrefixes(localPath: string): seq<string>
  {
    Prefixes(localPath, LocalSeparator)
  }

  function RemotePrefixes(remotePath: string): seq<string>
  {
    Prefixes(remotePath, RemoteSeparator)
  }

  /** Some (local prefix, remote prefix) pair is permitted by the table. */
  predicate IsAuthorized(t: Table, localPath: string, remotePath: string)
  {
    var lp, rp := LocalPrefixes(localPath), RemotePrefixes(remotePath);
    exists i, j :: 0 <= i < |lp| && 0 <= j < |rp| && Permits(t, lp[i], rp[j])
  }

  predicate IsBreach(t: Table, localPath: string, remotePath: string)
  {
    !IsAuthorized(t, localPath, remotePath)
  }

  /** A path that does not end in its separator is its own last prefix. */
  lemma FullPathIsLastPrefix(path: string, sep: char)
    requires path == [] || Last(path) != sep
    ensures |Prefixes(path, sep)| > 0 && Last(Prefixes(path, sep)) == path
  {
    JavaSplitPrefixes(path, sep);
    var parts := JavaSplit(path, sep);
    assert parts[..|parts|] == parts;
  }

  /** A rule naming the whole local path and the whole remote path authorises the transfer,
      provided neither path ends in its separator. */
  lemma FullPathRuleAuthorizes(t: Table, localPath: string, remotePath: string)
    requires localPath == [] || Last(localPath) != LocalSeparator
    requires remotePath == [] || Last(remotePath) != RemoteSeparator
    requires Permits(t, localPath, remotePath)
    ensures !IsBreach(t, localPath, remotePath)
  {
    FullPathIsLastPrefix(localPath, LocalSeparator);
    FullPathIsLastPrefix(remotePath, RemoteSeparator);
    var lp, rp := LocalPrefixes(localPath), RemotePrefixes(remotePath);
    var i, j := |lp| - 1, |rp| - 1;
    assert lp[i] == localPath && rp[j] == remotePath;
    assert 0 <= i < |lp| && 0 <= j < |rp| && Permits(t, lp[i], rp[j]);
  }

  /** A path ending in its separator is never one of its own prefixes: they are all shorter. */
  lemma TrailingSeparatorPrefixesShorter(path: string, sep: char)
    requires path != [] && Last(path) == sep
    ensures forall i :: 0 <= i < |Prefixes(path, sep)| ==> |Prefixes(path, sep)[i]| < |path|
  {
    var parts := JavaSplit(path, sep);
    JavaSplitPrefixes(path, sep);
    if |parts| > 0 {
      assert sep in path by { assert path[|path| - 1] == sep; }
      JoinEndsInLastPart(parts, sep);
      assert parts[..|parts|] == parts;
      var whole := Join(parts, sep);
      assert whole <= path;
      assert Last(whole) != sep by {
        assert Last(Last(parts)) in Last(parts);
      }
      assert path[|whole| - 1] == Last(whole);
      var pr := Prefixes(path, sep);
      forall i | 0 <= i < |pr| ensures |pr[i]| < |path| {
        JoinOfPrefix(parts, i + 1, sep);
      }
    }
  }

  /** So a rule naming a remote path that ends in `/` never authorises a transfer to exactly
      that path: the full-path rule needs the path without its trailing separator. */
  lemma TrailingSeparatorRuleNeverMatches(localPath: string, remotePath: string)
    requires remotePath != [] && Last(remotePath) == RemoteSeparator
    ensures IsBreach(map[localPath := {remotePath}], localPath, remotePath)
  {
    TrailingSeparatorPrefixesShorter(remotePath, RemoteSeparator);
  }

  /** `wide` keeps every rule of `t` (it may add keys and values). */
  predicate Extends(wide: Table, t: Table)
  {
    forall l :: l in t ==> l in wide && t[l] <= wide[l]
  }

  /** Adding rules never turns an authorised transfer into a breach. */
  lemma AuthorizationMonotone(t: Table, wide: Table, localPath: string, remotePath: string)
    requires Extends(wide, t)
    requires !IsBreach(t, localPath, remotePath)
    ensures !IsBreach(wide, localPath, remotePath)
  {
    var lp, rp := LocalPrefixes(localPath), RemotePrefixes(remotePath);
    var i, j :| 0 <= i < |lp| && 0 <= j < |rp| && Permits(t, lp[i], rp[j]);
    assert Permits(wide, lp[i], rp[j]);
  }

  /** The empty path splits into one empty piece, so it has exactly one prefix, "". */
  lemma EmptyPathHasEmptyPrefix(sep: char)
    ensures Prefixes("", sep) == [""]
  {
    assert JavaSplit("", sep) == [""];
  }

  /** A path made only of separators splits into no pieces: it has no prefixes and every
      transfer from or to it is a breach. */
  lemma {:induction false} SeparatorsOnlyHaveNoPrefixes(path: string, sep: char)
    requires path != []
    requires forall k :: 0 <= k < |path| ==> path[k] == sep
    ensures Prefixes(path, sep) == []
  {
    assert sep in path by { assert path[0] == sep; }
    SeparatorsOnlyRawPiecesEmpty(path, sep);
  }

  lemma {:induction false} SeparatorsOnlyRawPiecesEmpty(path: string, sep: char)
    requires forall k :: 0 <= k < |path| ==> path[k] == sep
    ensures forall k :: 0 <= k < |RawSplit(path, sep)| ==> RawSplit(path, sep)[k] == ""
    ensures DropTrailingEmpty(RawSplit(path, sep)) == []
  {
    if path != [] {
      SeparatorsOnlyRawPiecesEmpty(DropLast(path), sep);
      var r := RawSplit(path, sep);
      assert r == RawSplit(DropLast(path), sep) + [""];
    }
  }

  lemma SeparatorOnlyLocalPathIsBreach(t: Table, localPath: string, remotePath: string)
    requires localPath != []
    requires forall k :: 0 <= k < |localPath| ==> localPath[k] == LocalSeparator
    ensures IsBreach(t, localPath, remotePath)
  {
    SeparatorsOnlyHaveNoPrefixes(localPath, LocalSeparator);
  }

  /** A rule from a local prefix to a remote prefix authorises a deeper transfer
      (`C:\Finance` may send to `sftp/partnerA`, so `C:\Finance\report.csv` may go to
      `sftp/partnerA/incoming`). */
  lemma ScenarioPrefixRuleAuthorizes()
    ensures !IsBreach(map["C:\\Finance" := {"sftp/partnerA"}],
                      "C:\\Finance\\report.csv", "sftp/partnerA/incoming")
  {
    ScenarioLocalPrefix();
    ScenarioRemotePrefix();
    var lp, rp := LocalPrefixes("C:\\Finance\\report.csv"), RemotePrefixes("sftp/partnerA/incoming");
    assert 0 <= 1 < |lp| && 0 <= 1 < |rp| && Permits(map["C:\\Finance" := {"sftp/partnerA"}], lp[1], rp[1]);
  }

  lemma ScenarioLocalPrefix()
    ensures |LocalPrefixes("C:\\Finance\\report.csv")| == 3
    ensures LocalPrefixes("C:\\Finance\\report.csv")[1] == "C:\\Finance"
  {
    var ls := ["C:", "Finance", "report.csv"];
    assert Join(ls[..2], LocalSeparator) == "C:\\Finance";
    assert Join(ls, LocalSeparator) == "C:\\Finance\\report.csv";
    PrefixesOfJoin(ls, LocalSeparator, 1);
  }

  lemma ScenarioRemotePrefix()
    ensures |RemotePrefixes("sftp/partnerA/incoming")| == 3
    ensures RemotePrefixes("sftp/partnerA/incoming")[1] == "sftp/partnerA"
  {
    var rs := ["sftp", "partnerA", "incoming"];
    assert Join(rs[..2], RemoteSeparator) == "sftp/partnerA";
    assert Join(rs, RemoteSeparator) == "sftp/partnerA/incoming";
    PrefixesOfJoin(rs, RemoteSeparator, 1);
  }

  /** The prefixes of a join of pieces are the joins of its first pieces. */
  lemma PrefixesOfJoin(parts: seq<string>, sep: char, i: nat)
    requires i < |parts|
    requires forall k :: 0 <= k < |parts| ==> sep !in parts[k]
    requires |parts| == 1 || Last(parts) != ""
    ensures |Prefixes(Join(parts, sep), sep)| == |parts|
    ensures Prefixes(Join(parts, sep), sep)[i] == Join(parts[..i + 1], sep)
  {
    SplitJoinRoundTrip(parts, sep);
  }

  /** The same rule does not reach a sibling destination: no remote prefix of
      `sftp/partnerB/incoming` is `sftp/partnerA`. */
  lemma ScenarioSiblingIsBreach()
    ensures IsBreach(map["C:\\Finance" := {"sftp/partnerA"}],
                     "C:\\Finance\\report.csv", "sftp/partnerB/incoming")
  {
    var remote := "sftp/partnerB/incoming";
    var rp := RemotePrefixes(remote);
    forall j | 0 <= j < |rp| ensures rp[j] != "sftp/partnerA" {
      assert rp[j] <= remote;
      assert remote[12] != "sftp/partnerA"[12];
    }
  }

  // ---- Filling the table from the mapping sheet ----

  /** The remote prefixes the table allows for `l`, none when `l` has no rule. */
  function Allowed(t: Table, l: string): set<string>
  {
    if l in t then t[l] else {}
  }

  /** The table after reading the cell pair (key, value): the value joins the key's set,
      which is created when the key is new. */
  function AddPair(t: Table, key: string, value: string): (r: Table)
    ensures key in r && r[key] == Allowed(t, key) + {value}
    ensures forall l :: l != key ==> (l in r <==> l in t) && Allowed(r, l) == Allowed(t, l)
    ensures Extends(r, t)
  {
    t[key := Allowed(t, key) + {value}]
  }

  /** The cell pairs of one row: cells 0 and 1, 2 and 3, and so on; a lone last cell forms no pair. */
  function RowPairs(cells: seq<string>): (r: seq<(string, string)>)
    ensures |r| == |cells| / 2
    ensures forall j :: 0 <= j < |r| ==> r[j] == (cells[2 * j], cells[2 * j + 1])
  {
    if |cells| < 2 then [] else [(cells[0], cells[1])] + RowPairs(cells[2..])
  }

  /** The pairs read from the sheet, in order, and whether the read completed. A row with an
      odd number of cells makes the value read fail after its last complete pair, which
      abandons the remaining rows. */
  function ReadPairs(rows: seq<seq<string>>): (seq<(string, string)>, bool)
  {
    if rows == [] then ([], true)
    else
      var (pairs, ok) := ReadPairs(DropLast(rows));
      if !ok then (pairs, false)
      else (pairs + RowPairs(Last(rows)), |Last(rows)| % 2 == 0)
  }

  function FoldPairs(t: Table, pairs: seq<(string, string)>): Table
  {
    if pairs == [] then t
    else
      var p := Last(pairs);
      AddPair(FoldPairs(t, DropLast(pairs)), p.0, p.1)
  }

  /** Folding pairs into a table permits exactly the old rules plus the folded pairs. */
  lemma {:induction false} FoldPairsPermits(t: Table, pairs: seq<(string, string)>, l: string, r: string)
    ensures Permits(FoldPairs(t, pairs), l, r) <==> Permits(t, l, r) || (l, r) in pairs
  {
    if pairs != [] {
      FoldPairsPermits(t, DropLast(pairs), l, r);
      assert pairs == DropLast(pairs) + [Last(pairs)];
    }
  }

  /** Folding pairs keeps every rule already in the table. */
  lemma {:induction false} FoldPairsExtends(t: Table, pairs: seq<(string, string)>)
    ensures Extends(FoldPairs(t, pairs), t)
  {
    if pairs != [] {
      FoldPairsExtends(t, DropLast(pairs));
    }
  }

  /** A sheet whose rows all have an even number of cells is read completely: every cell
      pair of every row ends up permitted. */
  lemma {:induction false} CompleteReadPermitsEveryRowPair(rows: seq<seq<string>>, r: nat, j: nat)
    requires forall k :: 0 <= k < |rows| ==> |rows[k]| % 2 == 0
    requires r < |rows| && 2 * j + 1 < |rows[r]|
    ensures ReadPairs(rows).1
    ensures (rows[r][2 * j], rows[r][2 * j + 1]) in ReadPairs(rows).0
  {
    AllEvenRowsComplete(rows);
    if r < |rows| - 1 {
      CompleteReadPermitsEveryRowPair(DropLast(rows), r, j);
    } else {
      assert RowPairs(Last(rows))[j] == (rows[r][2 * j], rows[r][2 * j + 1]);
    }
  }

  lemma {:induction false} AllEvenRowsComplete(rows: seq<seq<string>>)
    requires forall k :: 0 <= k < |rows| ==> |rows[k]| % 2 == 0
    ensures ReadPairs(rows).1
  {
    if rows != [] {
      AllEvenRowsComplete(DropLast(rows));
    }
  }
}

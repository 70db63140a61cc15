/** The search side of the memory index (`search.py`): the FTS5 query
    string built from the user's words, the staleness test that decides an
    automatic re-index, the normalisation of vector distances and FTS ranks
    to [0,1], their weighted fusion, and the ranked, filtered, limited
    result list. The two SQL queries and the chunk/file join are inputs:
    their rows are given lists, and the join is a function from chunk id to
    the joined row, or `None` when the chunk row is missing. */
module Search {
  import opened Base
  import Order
  import opened Store
  import Sync

  const VectorWeight: real := 0.7
  const FtsWeight: real := 0.3
  const DefaultLimit: int := 5
  const DefaultThreshold: real := 0.3

  // ---------------------------------------------------------------------------
  // The FTS5 query string
  // ---------------------------------------------------------------------------

  /** One word as an FTS5 phrase: `'"' + w + '"'`. */
  function Quote(w: string): string {
    "\"" + w + "\""
  }

  function QuoteAll(words: seq<string>): (r: seq<string>)
    ensures |r| == |words|
    ensures forall k :: 0 <= k < |r| ==> r[k] == Quote(words[k])
  {
    if |words| == 0 then [] else [Quote(words[0])] + QuoteAll(words[1..])
  }

  /** `_normalise_fts_query`: every whitespace-separated word becomes a
      quoted phrase and the phrases are joined with " OR "; a query with no
      words becomes the empty phrase `""`. */
  function NormaliseFtsQuery(query: string): (r: string)
    ensures |r| >= 2 && r[0] == '"' && r[|r| - 1] == '"'
  {
    var words := SplitWhitespace(query);
    if |words| == 0 then "\"\""
    else
      var parts := QuoteAll(words);
      JoinStartsWithFirst(parts, " OR ");
      JoinEndsWithLast(parts, " OR ");
      Join(parts, " OR ")
  }

  lemma {:induction false} JoinEndsWithLast(parts: seq<string>, sep: string)
    requires |parts| >= 1
    ensures EndsWith(Join(parts, sep), parts[|parts| - 1])
    decreases |parts|
  {
    if |parts| > 1 {
      JoinEndsWithLast(parts[1..], sep);
      var rest := Join(parts[1..], sep);
      var last := parts[|parts| - 1];
      assert Join(parts, sep) == (parts[0] + sep) + rest;
      assert Join(parts, sep)[|Join(parts, sep)| - |last|..] == rest[|rest| - |last|..];
    }
  }

  /** A phrase with its quotes removed, if it is a quoted non-empty word. */
  function Unquote(t: string): Option<string> {
    if |t| >= 3 && t[0] == '"' && t[|t| - 1] == '"' then Some(t[1..|t| - 1]) else None
  }

  /** Reads a query of the shape `"w1" OR "w2" OR ...` back into its words,
      relying on the words holding no space. */
  function ParseTerms(q: string): Option<seq<string>>
    decreases |q|
  {
    var i := Find(q, ' ');
    if i < 0 then Prepend(Unquote(q), Some([]))
    else if !StartsWith(q[i..], " OR ") then None
    else Prepend(Unquote(q[..i]), ParseTerms(q[i + 4..]))
  }

  /** A parsed word in front of the parsed rest, if both parsed. */
  function Prepend(w: Option<string>, ws: Option<seq<string>>): Option<seq<string>> {
    if w.Some? && ws.Some? then Some([w.value] + ws.value) else None
  }

  /** Reads a built FTS query back into its words: the terms between
      `" OR "` with their quotes stripped. This is the model's own reader,
      not FTS5's query grammar. */
  function ParseFtsQuery(q: string): Option<seq<string>> {
    if q == "\"\"" then Some([]) else ParseTerms(q)
  }

  /** The first space in `a + b` is the first character of `b` when `a`
      has none. */
  lemma FindAfter(a: string, b: string)
    requires ' ' !in a && |b| > 0 && b[0] == ' '
    ensures Find(a + b, ' ') == |a|
  {
    var q := a + b;
    assert q[|a|] == ' ';
    assert q[..|a|] == a;
  }

  /** A quoted word holds no space and unquotes to the word. */
  lemma QuotedWord(w: string)
    requires |w| > 0 && forall i :: 0 <= i < |w| ==> !IsSpace(w[i])
    ensures ' ' !in Quote(w) && Unquote(Quote(w)) == Some(w)
  {
    var t := Quote(w);
    assert t[1..|t| - 1] == w;
    forall i | 0 <= i < |t|
      ensures t[i] != ' '
    {
      if 0 < i < |t| - 1 {
        assert t[i] == w[i - 1];
      }
    }
  }

  /** Parsing a phrase followed by " OR " and more phrases. */
  lemma ParseTermsCons(t: string, w: string, rest: string)
    requires ' ' !in t && Unquote(t) == Some(w)
    ensures ParseTerms(t + (" OR " + rest)) == Prepend(Some(w), ParseTerms(rest))
  {
    var q := t + (" OR " + rest);
    var i := Find(q, ' ');
    assert i == |t| by {
      FindAfter(t, " OR " + rest);
    }
    assert StartsWith(q[i..], " OR ") by {
      assert q[i..][..4] == " OR ";
    }
    assert q[..i] == t;
    assert q[i + 4..] == rest;
    ParseTermsAt(q, i);
  }

  /** Unfolds the parser at a first space followed by " OR ". */
  lemma ParseTermsAt(q: string, i: int)
    requires i == Find(q, ' ') && i >= 0 && StartsWith(q[i..], " OR ")
    ensures ParseTerms(q) == Prepend(Unquote(q[..i]), ParseTerms(q[i + 4..]))
  {
  }

  /** Parsing a single phrase. */
  lemma ParseTermsSingle(t: string, w: string)
    requires ' ' !in t && Unquote(t) == Some(w)
    ensures ParseTerms(t) == Some([w])
  {
    assert Find(t, ' ') == -1;
    assert [w] + [] == [w];
  }

  lemma {:induction false} ParseTermsJoin(words: seq<string>)
    requires |words| >= 1
    requires forall k, i :: 0 <= k < |words| && 0 <= i < |words[k]| ==> !IsSpace(words[k][i])
    requires forall k :: 0 <= k < |words| ==> |words[k]| > 0
    ensures ParseTerms(Join(QuoteAll(words), " OR ")) == Some(words)
    decreases |words|
  {
    var t := Quote(words[0]);
    QuotedWord(words[0]);
    if |words| == 1 {
      assert Join(QuoteAll(words), " OR ") == t;
      ParseTermsSingle(t, words[0]);
      assert words == [words[0]];
    } else {
      var tail := QuoteAll(words[1..]);
      var rest := Join(tail, " OR ");
      assert QuoteAll(words) == [t] + tail;
      JoinCons(t, tail, " OR ");
      assert Join(QuoteAll(words), " OR ") == t + (" OR " + rest);
      ParseTermsJoin(words[1..]);
      ParseTermsCons(t, words[0], rest);
      assert words == [words[0]] + words[1..];
    }
  }

  /** Reading the built query back with `ParseFtsQuery` gives
      `query.split()`. */
  lemma FtsQueryRoundTrip(query: string)
    ensures ParseFtsQuery(NormaliseFtsQuery(query)) == Some(SplitWhitespace(query))
  {
    var words := SplitWhitespace(query);
    if |words| > 0 {
      ParseTermsJoin(words);
    }
  }

  // ---------------------------------------------------------------------------
  // Staleness
  // ---------------------------------------------------------------------------

  /** One directory the staleness test looks at: whether it is a directory,
      and the files its walk yields. */
  datatype ScanDir = ScanDir(isDir: bool, entries: seq<Sync.DiskEntry>)

  /** The (path, mtime) pairs of the markdown files of the directories that
      exist, in walk order. */
  function Listing(dirs: seq<ScanDir>): (l: seq<(string, real)>)
    ensures forall x :: x in l <==> exists i, e :: 0 <= i < |dirs| && dirs[i].isDir && e in dirs[i].entries && Sync.IsMarkdownName(e.name) && x == (e.relToRoot, e.mtime)
    decreases |dirs|
  {
    if |dirs| == 0 then []
    else
      var init := Listing(dirs[..|dirs| - 1]);
      var last := dirs[|dirs| - 1];
      assert forall i :: 0 <= i < |dirs| - 1 ==> dirs[..|dirs| - 1][i] == dirs[i];
      if last.isDir then init + MarkdownIn(last.entries) else init
  }

  function MarkdownIn(entries: seq<Sync.DiskEntry>): (l: seq<(string, real)>)
    ensures forall x :: x in l <==> exists e :: e in entries && Sync.IsMarkdownName(e.name) && x == (e.relToRoot, e.mtime)
  {
    if |entries| == 0 then []
    else
      var rest := MarkdownIn(entries[1..]);
      assert forall e :: e in entries <==> e == entries[0] || e in entries[1..];
      if Sync.IsMarkdownName(entries[0].name) then [(entries[0].relToRoot, entries[0].mtime)] + rest else rest
  }


  /** A dict filled from a list of pairs: a later pair overwrites an
      earlier one with the same key. */
  function MapOf<K(!new)>(l: seq<(K, real)>): (m: map<K, real>)
    ensures forall k :: k in m <==> exists i :: 0 <= i < |l| && l[i].0 == k
    decreases |l|
  {
    if |l| == 0 then map[]
    else
      var n := |l| - 1;
      assert forall i :: 0 <= i < n ==> l[..n][i] == l[i];
      MapOf(l[..n])[l[n].0 := l[n].1]
  }

  /** The pair that decides a key's value: no later pair has the same key. */
  ghost predicate LastFor<K>(l: seq<(K, real)>, i: int) {
    0 <= i < |l| && forall j :: i < j < |l| ==> l[j].0 != l[i].0
  }

  /** Every key holds the value of its last pair. */
  lemma {:induction false} MapOfLast<K(!new)>(l: seq<(K, real)>, i: int)
    requires LastFor(l, i)
    ensures l[i].0 in MapOf(l) && MapOf(l)[l[i].0] == l[i].1
    decreases |l|
  {
    var n := |l| - 1;
    if i < n {
      assert forall j :: 0 <= j < n ==> l[..n][j] == l[j];
      MapOfLast(l[..n], i);
    }
  }

  /** The position of the last pair with key `k`. */
  lemma {:induction false} LastIndex<K>(l: seq<(K, real)>, k: K) returns (i: int)
    requires exists j :: 0 <= j < |l| && l[j].0 == k
    ensures LastFor(l, i) && l[i].0 == k
    decreases |l|
  {
    var n := |l| - 1;
    if l[n].0 == k {
      i := n;
    } else {
      var j :| 0 <= j < |l| && l[j].0 == k;
      assert l[..n][j] == l[j];
      i := LastIndex(l[..n], k);
      assert forall j :: 0 <= j < n ==> l[..n][j] == l[j];
    }
  }


  /** `disk_mtimes`: the mtime of every markdown path found, the last
      walk entry for a path winning. */
  function DiskMtimes(dirs: seq<ScanDir>): map<string, real> {
    MapOf(Listing(dirs))
  }

  /** `stored_mtimes`: the mtime recorded for every indexed path. */
  function StoredMtimes(d: Db): (m: map<string, real>)
    ensures m.Keys == d.files.Keys
    ensures forall p :: p in m ==> m[p] == d.files[p].mtime
  {
    map p | p in d.files :: d.files[p].mtime
  }

  /** The index is stale when the store file is missing, when the markdown
      paths on disk are not the indexed paths, or when some mtime moved. */
  ghost predicate Stale(dbExists: bool, stored: map<string, real>, disk: map<string, real>) {
    || !dbExists
    || disk.Keys != stored.Keys
    || exists p :: p in disk && p in stored && disk[p] != stored[p]
  }

  /** `_should_auto_sync`, with the store's contents and the walks of the
      memory directory and the extra directories as inputs. */
  method ShouldAutoSync(dbExists: bool, d: Db, dirs: seq<ScanDir>) returns (b: bool)
    ensures b <==> Stale(dbExists, StoredMtimes(d), DiskMtimes(dirs))
  {
    if !dbExists {
      return true;
    }
    var stored := StoredMtimes(d);
    var disk := DiskMtimes(dirs);
    if disk.Keys != stored.Keys {
      return true;
    }
    var todo := disk.Keys;
    while todo != {}
      invariant todo <= disk.Keys
      invariant forall p :: p in disk && p !in todo ==> disk[p] == stored[p]
      decreases todo
    {
      var p :| p in todo;
      if disk[p] != stored[p] {
        return true;
      }
      todo := todo - {p};
    }
    return false;
  }

  /** A path is on disk for the staleness test exactly when some existing
      directory's walk yields a markdown file there; the walks of missing
      directories are never looked at. */
  lemma DiskMtimesPaths(dirs: seq<ScanDir>, p: string)
    ensures p in DiskMtimes(dirs) <==>
      exists i, e :: 0 <= i < |dirs| && dirs[i].isDir && e in dirs[i].entries && Sync.IsMarkdownName(e.name) && e.relToRoot == p
  {
    var l := Listing(dirs);
    if p in DiskMtimes(dirs) {
      var k :| 0 <= k < |l| && l[k].0 == p;
      assert l[k] in l;
    }
    if exists i, e :: 0 <= i < |dirs| && dirs[i].isDir && e in dirs[i].entries && Sync.IsMarkdownName(e.name) && e.relToRoot == p {
      var i, e :| 0 <= i < |dirs| && dirs[i].isDir && e in dirs[i].entries && Sync.IsMarkdownName(e.name) && e.relToRoot == p;
      assert (e.relToRoot, e.mtime) in l;
    }
  }

  /** The disk mtime of a path is the one of the last walk entry for it. */
  lemma DiskMtimeOf(dirs: seq<ScanDir>, p: string) returns (x: (string, real))
    requires p in DiskMtimes(dirs)
    ensures x in Listing(dirs) && x.0 == p && DiskMtimes(dirs)[p] == x.1
  {
    var l := Listing(dirs);
    var i := LastIndex(l, p);
    MapOfLast(l, i);
    x := l[i];
  }

  // ---------------------------------------------------------------------------
  // Score normalisation
  // ---------------------------------------------------------------------------

  function MaxValue(rows: seq<(nat, real)>): (m: real)
    requires |rows| > 0
    ensures forall i :: 0 <= i < |rows| ==> rows[i].1 <= m
    ensures exists i :: 0 <= i < |rows| && rows[i].1 == m
  {
    if |rows| == 1 then rows[0].1
    else
      var m := MaxValue(rows[1..]);
      assert forall i :: 1 <= i < |rows| ==> rows[i] == rows[1..][i - 1];
      if rows[0].1 >= m then rows[0].1 else m
  }

  function MinValue(rows: seq<(nat, real)>): (m: real)
    requires |rows| > 0
    ensures forall i :: 0 <= i < |rows| ==> m <= rows[i].1
    ensures exists i :: 0 <= i < |rows| && rows[i].1 == m
  {
    if |rows| == 1 then rows[0].1
    else
      var m := MinValue(rows[1..]);
      assert forall i :: 1 <= i < |rows| ==> rows[i] == rows[1..][i - 1];
      if rows[0].1 <= m then rows[0].1 else m
  }

  /** `max(distances) or 1.0`: a zero maximum falls back to 1.0. */
  function DistanceScale(rows: seq<(nat, real)>): real
    requires |rows| > 0
  {
    var m := MaxValue(rows);
    if m == 0.0 then 1.0 else m
  }

  /** The score of one distance against the scale: 0 at the scale, 1 at
      distance 0. */
  function VecScore(dist: real, scale: real): (r: real)
    ensures scale > 0.0 && 0.0 <= dist <= scale ==> 0.0 <= r <= 1.0
    ensures scale > 0.0 && dist == scale ==> r == 0.0
    ensures dist == 0.0 ==> r == 1.0
  {
    if scale > 0.0 then
      DivBounds(dist, scale);
      1.0 - dist / scale
    else 1.0
  }

  lemma DivBounds(d: real, m: real)
    requires m > 0.0
    ensures 0.0 <= d ==> 0.0 <= d / m
    ensures d <= m ==> d / m <= 1.0
    ensures d == m ==> d / m == 1.0
  {
  }

  /** Each row with its distance turned into a score. */
  function VecRescore(rows: seq<(nat, real)>, scale: real): (r: seq<(nat, real)>)
    ensures |r| == |rows|
    ensures forall i :: 0 <= i < |r| ==> r[i] == (rows[i].0, VecScore(rows[i].1, scale))
  {
    seq(|rows|, i requires 0 <= i < |rows| => (rows[i].0, VecScore(rows[i].1, scale)))
  }

  /** `vec_scores`: every chunk id of the vector query scored by its
      distance, a later row for an id winning. */
  function VecScores(rows: seq<(nat, real)>): (m: map<nat, real>)
    ensures forall c :: c in m <==> exists i :: 0 <= i < |rows| && rows[i].0 == c
  {
    if |rows| == 0 then map[]
    else
      var l := VecRescore(rows, DistanceScale(rows));
      assert forall i :: 0 <= i < |rows| ==> l[i].0 == rows[i].0;
      MapOf(l)
  }

  /** Each id's vector score is computed from the distance of its last row. */
  lemma VecScoreOf(rows: seq<(nat, real)>, i: int)
    requires LastFor(rows, i)
    ensures rows[i].0 in VecScores(rows) && VecScores(rows)[rows[i].0] == VecScore(rows[i].1, DistanceScale(rows))
  {
    var l := VecRescore(rows, DistanceScale(rows));
    assert forall j :: 0 <= j < |rows| ==> l[j].0 == rows[j].0;
    MapOfLast(l, i);
  }

  /** For non-negative distances every vector score lies in [0,1]. */
  lemma VecScoresRange(rows: seq<(nat, real)>, c: nat)
    requires forall i :: 0 <= i < |rows| ==> rows[i].1 >= 0.0
    requires c in VecScores(rows)
    ensures 0.0 <= VecScores(rows)[c] <= 1.0
  {
    var i := LastIndex(rows, c);
    VecScoreOf(rows, i);
  }

  /** The farthest hit scores 0. */
  lemma VecFarthest(rows: seq<(nat, real)>, i: int)
    requires LastFor(rows, i)
    requires rows[i].1 == MaxValue(rows) && rows[i].1 > 0.0
    ensures VecScores(rows)[rows[i].0] == 0.0
  {
    VecScoreOf(rows, i);
  }

  /** When every distance is 0, every score is 1. */
  lemma VecAllZero(rows: seq<(nat, real)>, c: nat)
    requires forall i :: 0 <= i < |rows| ==> rows[i].1 == 0.0
    requires c in VecScores(rows)
    ensures VecScores(rows)[c] == 1.0
  {
    var i := LastIndex(rows, c);
    VecScoreOf(rows, i);
  }

  /** `max_rank - min_rank`, or 1.0 when every rank is the same. */
  function RankRange(rows: seq<(nat, real)>): (r: real)
    requires |rows| > 0
    ensures r > 0.0
  {
    var hi := MaxValue(rows);
    var lo := MinValue(rows);
    if hi != lo then hi - lo else 1.0
  }

  /** The score of one rank: its distance below the worst rank `hi`, as a
      share of the range. */
  function RankScore(rank: real, hi: real, range: real): real
    requires range > 0.0
  {
    (hi - rank) / range
  }

  /** Each row with its rank turned into a score. */
  function FtsRescore(rows: seq<(nat, real)>, hi: real, range: real): (r: seq<(nat, real)>)
    requires range > 0.0
    ensures |r| == |rows|
    ensures forall i :: 0 <= i < |r| ==> r[i] == (rows[i].0, RankScore(rows[i].1, hi, range))
  {
    seq(|rows|, i requires 0 <= i < |rows| => (rows[i].0, RankScore(rows[i].1, hi, range)))
  }

  /** `fts_scores`: every row id of the FTS query scored by its rank; `None`
      stands for a query that raised, which leaves the scores empty. */
  function FtsScores(result: Option<seq<(nat, real)>>): (m: map<nat, real>)
    ensures result.None? ==> m == map[]
  {
    match result
    case None => map[]
    case Some(rows) => RankScores(rows)
  }

  /** The scores of the rows an FTS query returned, a later row for an id
      winning. */
  function RankScores(rows: seq<(nat, real)>): (m: map<nat, real>)
    ensures forall c :: c in m <==> exists i :: 0 <= i < |rows| && rows[i].0 == c
  {
    if |rows| == 0 then map[]
    else
      var l := FtsRescore(rows, MaxValue(rows), RankRange(rows));
      assert forall i :: 0 <= i < |rows| ==> l[i].0 == rows[i].0;
      MapOf(l)
  }

  /** Each id's FTS score is computed from the rank of its last row. */
  lemma FtsScoreOf(rows: seq<(nat, real)>, i: int)
    requires LastFor(rows, i)
    ensures rows[i].0 in RankScores(rows)
    ensures RankScores(rows)[rows[i].0] == RankScore(rows[i].1, MaxValue(rows), RankRange(rows))
  {
    var l := FtsRescore(rows, MaxValue(rows), RankRange(rows));
    assert forall j :: 0 <= j < |rows| ==> l[j].0 == rows[j].0;
    MapOfLast(l, i);
  }

  /** Every FTS score lies in [0,1], whatever the ranks. */
  lemma FtsScoresRange(rows: seq<(nat, real)>, c: nat)
    requires c in RankScores(rows)
    ensures 0.0 <= RankScores(rows)[c] <= 1.0
  {
    var i := LastIndex(rows, c);
    FtsScoreOf(rows, i);
    var hi := MaxValue(rows);
    var lo := MinValue(rows);
    if hi != lo {
      DivBounds(hi - rows[i].1, hi - lo);
    }
  }

  /** The best (lowest) rank scores 1 and the worst scores 0. */
  lemma FtsBestWorst(rows: seq<(nat, real)>, i: int)
    requires LastFor(rows, i)
    requires MaxValue(rows) != MinValue(rows)
    ensures rows[i].1 == MinValue(rows) ==> RankScores(rows)[rows[i].0] == 1.0
    ensures rows[i].1 == MaxValue(rows) ==> RankScores(rows)[rows[i].0] == 0.0
  {
    FtsScoreOf(rows, i);
    var hi := MaxValue(rows);
    var lo := MinValue(rows);
    assert RankRange(rows) == hi - lo;
    if rows[i].1 == lo {
      DivBounds(hi - lo, hi - lo);
    }
  }

  /** When all ranks are equal, a single hit included, every score is 0. */
  lemma FtsAllEqual(rows: seq<(nat, real)>, c: nat)
    requires forall i :: 0 <= i < |rows| ==> rows[i].1 == rows[0].1
    requires c in RankScores(rows)
    ensures RankScores(rows)[c] == 0.0
  {
    var i := LastIndex(rows, c);
    FtsScoreOf(rows, i);
    assert MaxValue(rows) == rows[0].1 == MinValue(rows);
  }

  // ---------------------------------------------------------------------------
  // Fusion
  // ---------------------------------------------------------------------------

  /** `scores.get(cid, 0.0)` */
  function Get(m: map<nat, real>, c: nat): real {
    if c in m then m[c] else 0.0
  }

  /** The fused score `0.7·vs + 0.3·fs`; inside [0,1] when both parts are. */
  function Fusion(vs: real, fs: real): (r: real)
    ensures 0.0 <= vs <= 1.0 && 0.0 <= fs <= 1.0 ==> 0.0 <= r <= 1.0
  {
    VectorWeight * vs + FtsWeight * fs
  }

  /** The fused score never drops when either part grows. */
  lemma FusionMonotone(vs: real, fs: real, vs2: real, fs2: real)
    requires vs <= vs2 && fs <= fs2
    ensures Fusion(vs, fs) <= Fusion(vs2, fs2)
  {
  }

  function FusedScore(vec: map<nat, real>, fts: map<nat, real>, c: nat): real {
    Fusion(Get(vec, c), Get(fts, c))
  }

  /** A candidate survives fusion when it came from either search and its
      fused score reaches the threshold. */
  ghost predicate Kept(vec: map<nat, real>, fts: map<nat, real>, threshold: real, c: nat) {
    (c in vec || c in fts) && FusedScore(vec, fts, c) >= threshold
  }

  ghost predicate DistinctIds(s: seq<(nat, real)>) {
    forall i, j :: 0 <= i < j < |s| ==> s[i].0 != s[j].0
  }

  ghost predicate HasId(s: seq<(nat, real)>, c: nat) {
    exists k :: 0 <= k < |s| && s[k].0 == c
  }

  /** The fusion loop over the union of the two id sets, visited in no
      particular order (Python's set order): one pair per kept candidate. */
  method Fuse(vec: map<nat, real>, fts: map<nat, real>, threshold: real) returns (fused: seq<(nat, real)>)
    ensures DistinctIds(fused)
    ensures forall k :: 0 <= k < |fused| ==> Kept(vec, fts, threshold, fused[k].0) && fused[k].1 == FusedScore(vec, fts, fused[k].0)
    ensures forall c :: Kept(vec, fts, threshold, c) ==> HasId(fused, c)
  {
    var todo := vec.Keys + fts.Keys;
    fused := [];
    while todo != {}
      invariant todo <= vec.Keys + fts.Keys
      invariant DistinctIds(fused)
      invariant forall k :: 0 <= k < |fused| ==> fused[k].0 !in todo
      invariant forall k :: 0 <= k < |fused| ==> Kept(vec, fts, threshold, fused[k].0) && fused[k].1 == FusedScore(vec, fts, fused[k].0)
      invariant forall c :: Kept(vec, fts, threshold, c) && c !in todo ==> HasId(fused, c)
      decreases todo
    {
      var c :| c in todo;
      var score := FusedScore(vec, fts, c);
      if score >= threshold {
        var before := fused;
        fused := fused + [(c, score)];
        assert fused[|before|].0 == c;
        forall x | HasId(before, x)
          ensures HasId(fused, x)
        {
          var k :| 0 <= k < |before| && before[k].0 == x;
          assert fused[k] == before[k];
        }
      }
      todo := todo - {c};
    }
  }

  /** Fused scores of normalised inputs lie in [0,1]. */
  lemma FusedRange(vec: map<nat, real>, fts: map<nat, real>, c: nat)
    requires forall x :: x in vec ==> 0.0 <= vec[x] <= 1.0
    requires forall x :: x in fts ==> 0.0 <= fts[x] <= 1.0
    ensures 0.0 <= FusedScore(vec, fts, c) <= 1.0
  {
  }

  /** What the ranking promises: descending scores, every pair a kept
      candidate with its fused score, every kept candidate present. */
  ghost predicate RankedBy(ranked: seq<(nat, real)>, vec: map<nat, real>, fts: map<nat, real>, threshold: real) {
    && Order.SortedDesc(ranked)
    && (forall k :: 0 <= k < |ranked| ==> Kept(vec, fts, threshold, ranked[k].0) && ranked[k].1 == FusedScore(vec, fts, ranked[k].0))
    && (forall c :: Kept(vec, fts, threshold, c) ==> HasId(ranked, c))
  }

  /** The ranked candidates: the fused pairs sorted by descending score. */
  method Rank(vec: map<nat, real>, fts: map<nat, real>, threshold: real) returns (ranked: seq<(nat, real)>)
    ensures RankedBy(ranked, vec, fts, threshold)
  {
    var fused := Fuse(vec, fts, threshold);
    ranked := Order.SortDesc(fused);
    forall k | 0 <= k < |ranked|
      ensures ranked[k] in fused
    {
      assert ranked[k] in multiset(ranked);
    }
    forall c | Kept(vec, fts, threshold, c)
      ensures HasId(ranked, c)
    {
      var j :| 0 <= j < |fused| && fused[j].0 == c;
      assert fused[j] in multiset(ranked);
      var k :| 0 <= k < |ranked| && ranked[k] == fused[j];
    }
  }

  // ---------------------------------------------------------------------------
  // Results
  // ---------------------------------------------------------------------------

  /** The row the chunk/file join yields for a chunk id. */
  datatype Hit = Hit(text: string, startLine: int, endLine: int, heading: Option<string>, path: string, namespace: string, agent: Option<string>)

  /** `SearchResult` */
  datatype SearchResult = SearchResult(text: string, file: string, namespace: string, heading: Option<string>, startLine: int, endLine: int, score: real)

  function ResultOf(h: Hit, score: real): SearchResult {
    SearchResult(h.text, h.path, h.namespace, h.heading, h.startLine, h.endLine, score)
  }

  /** The namespace filter applies only to a truthy namespace other than
      "all", and then asks for the same namespace. */
  predicate PassesNamespace(h: Hit, namespace: Option<string>) {
    Truthy(namespace) && namespace.value != "all" ==> h.namespace == namespace.value
  }

  /** The agent filter applies only to a truthy agent, and then asks for the
      same agent. */
  predicate PassesAgent(h: Hit, agent: Option<string>) {
    Truthy(agent) ==> h.agent == agent
  }

  /** A chunk id that yields a result: its chunk row exists and passes both
      filters. */
  predicate Eligible(c: nat, namespace: Option<string>, agent: Option<string>, join: nat -> Option<Hit>) {
    join(c).Some? && PassesNamespace(join(c).value, namespace) && PassesAgent(join(c).value, agent)
  }

  /** The result the ranked pair at `j` yields. */
  function ResultAt(ranked: seq<(nat, real)>, j: nat, join: nat -> Option<Hit>): SearchResult
    requires j < |ranked| && join(ranked[j].0).Some?
  {
    ResultOf(join(ranked[j].0).value, ranked[j].1)
  }

  /** The result loop from position `i` on: stops once `limit` results are
      collected, skips a missing chunk row and a filtered-out row. */
  function Collect(ranked: seq<(nat, real)>, i: nat, limit: int, namespace: Option<string>, agent: Option<string>,
                   join: nat -> Option<Hit>, acc: seq<SearchResult>): seq<SearchResult>
    requires i <= |ranked|
    decreases |ranked| - i
  {
    if i == |ranked| || |acc| >= limit then acc
    else if Eligible(ranked[i].0, namespace, agent, join) then
      Collect(ranked, i + 1, limit, namespace, agent, join, acc + [ResultAt(ranked, i, join)])
    else
      Collect(ranked, i + 1, limit, namespace, agent, join, acc)
  }

  /** The eligible positions from `i` on, in increasing order, all of them. */
  function Picks(ranked: seq<(nat, real)>, i: nat, namespace: Option<string>, agent: Option<string>, join: nat -> Option<Hit>): (r: seq<nat>)
    requires i <= |ranked|
    ensures forall k :: 0 <= k < |r| ==> i <= r[k] < |ranked| && Eligible(ranked[r[k]].0, namespace, agent, join)
    ensures forall k, l :: 0 <= k < l < |r| ==> r[k] < r[l]
    ensures forall j :: i <= j < |ranked| && Eligible(ranked[j].0, namespace, agent, join) ==> j in r
    decreases |ranked| - i
  {
    if i == |ranked| then []
    else if Eligible(ranked[i].0, namespace, agent, join) then [i] + Picks(ranked, i + 1, namespace, agent, join)
    else Picks(ranked, i + 1, namespace, agent, join)
  }

  /** Reference definition: the results of every eligible pair from `i` on,
      in ranking order, with no limit. */
  function Filtered(ranked: seq<(nat, real)>, i: nat, namespace: Option<string>, agent: Option<string>, join: nat -> Option<Hit>): (r: seq<SearchResult>)
    requires i <= |ranked|
  {
    var ix := Picks(ranked, i, namespace, agent, join);
    seq(|ix|, k requires 0 <= k < |ix| => ResultAt(ranked, ix[k], join))
  }

  /** One step of the reference definition. */
  lemma FilteredStep(ranked: seq<(nat, real)>, i: nat, namespace: Option<string>, agent: Option<string>, join: nat -> Option<Hit>)
    requires i < |ranked|
    ensures Filtered(ranked, i, namespace, agent, join) ==
      if Eligible(ranked[i].0, namespace, agent, join) then [ResultAt(ranked, i, join)] + Filtered(ranked, i + 1, namespace, agent, join)
      else Filtered(ranked, i + 1, namespace, agent, join)
  {
  }

  /** The first `n` elements of `s`, all of them if it is shorter, none for
      `n <= 0`. */
  function Take<T>(s: seq<T>, n: int): (r: seq<T>)
    ensures n <= 0 ==> r == []
    ensures n >= |s| ==> r == s
    ensures 0 <= n < |s| ==> r == s[..n]
    ensures |r| == (if n <= 0 then 0 else if n < |s| then n else |s|)
    ensures forall k :: 0 <= k < |r| ==> r[k] == s[k]
  {
    if n <= 0 then [] else if n >= |s| then s else s[..n]
  }

  lemma TakeCons<T>(x: T, s: seq<T>, n: int)
    requires n >= 1
    ensures Take([x] + s, n) == [x] + Take(s, n - 1)
  {
    if n - 1 < |s| {
      assert ([x] + s)[..n] == [x] + s[..n - 1];
    }
  }

  lemma TakeShift<T>(acc: seq<T>, x: T, s: seq<T>, n: int)
    requires n >= 1
    ensures (acc + [x]) + Take(s, n - 1) == acc + Take([x] + s, n)
  {
    TakeCons(x, s, n);
  }

  /** The result loop keeps the first `limit` eligible results in ranking
      order and nothing else. */
  lemma {:induction false} CollectTakes(ranked: seq<(nat, real)>, i: nat, limit: int, namespace: Option<string>, agent: Option<string>,
                                        join: nat -> Option<Hit>, acc: seq<SearchResult>)
    requires i <= |ranked|
    requires |acc| <= limit || |acc| == 0
    ensures Collect(ranked, i, limit, namespace, agent, join, acc) == acc + Take(Filtered(ranked, i, namespace, agent, join), limit - |acc|)
    decreases |ranked| - i
  {
    if i < |ranked| && |acc| < limit {
      if Eligible(ranked[i].0, namespace, agent, join) {
        CollectTakes(ranked, i + 1, limit, namespace, agent, join, acc + [ResultAt(ranked, i, join)]);
        CollectKept(ranked, i, limit, namespace, agent, join, acc);
      } else {
        CollectTakes(ranked, i + 1, limit, namespace, agent, join, acc);
        CollectSkipped(ranked, i, limit, namespace, agent, join, acc);
      }
    } else if i == |ranked| {
      assert Picks(ranked, i, namespace, agent, join) == [];
      assert Filtered(ranked, i, namespace, agent, join) == [];
    }
  }

  /** An eligible pair is kept, and the rest of the loop continues the
      reference definition. */
  lemma CollectKept(ranked: seq<(nat, real)>, i: nat, limit: int, namespace: Option<string>, agent: Option<string>,
                    join: nat -> Option<Hit>, acc: seq<SearchResult>)
    requires i < |ranked| && |acc| < limit && Eligible(ranked[i].0, namespace, agent, join)
    requires Collect(ranked, i + 1, limit, namespace, agent, join, acc + [ResultAt(ranked, i, join)])
          == (acc + [ResultAt(ranked, i, join)]) + Take(Filtered(ranked, i + 1, namespace, agent, join), limit - |acc| - 1)
    ensures Collect(ranked, i, limit, namespace, agent, join, acc) == acc + Take(Filtered(ranked, i, namespace, agent, join), limit - |acc|)
  {
    CollectStep(ranked, i, limit, namespace, agent, join, acc);
    FilteredStep(ranked, i, namespace, agent, join);
    TakeShift(acc, ResultAt(ranked, i, join), Filtered(ranked, i + 1, namespace, agent, join), limit - |acc|);
  }

  /** An ineligible pair is skipped by the loop and by the reference
      definition alike. */
  lemma CollectSkipped(ranked: seq<(nat, real)>, i: nat, limit: int, namespace: Option<string>, agent: Option<string>,
                       join: nat -> Option<Hit>, acc: seq<SearchResult>)
    requires i < |ranked| && |acc| < limit && !Eligible(ranked[i].0, namespace, agent, join)
    requires Collect(ranked, i + 1, limit, namespace, agent, join, acc)
          == acc + Take(Filtered(ranked, i + 1, namespace, agent, join), limit - |acc|)
    ensures Collect(ranked, i, limit, namespace, agent, join, acc) == acc + Take(Filtered(ranked, i, namespace, agent, join), limit - |acc|)
  {
    CollectStep(ranked, i, limit, namespace, agent, join, acc);
    FilteredStep(ranked, i, namespace, agent, join);
  }

  /** One turn of the result loop. */
  lemma CollectStep(ranked: seq<(nat, real)>, i: nat, limit: int, namespace: Option<string>, agent: Option<string>,
                    join: nat -> Option<Hit>, acc: seq<SearchResult>)
    requires i < |ranked| && |acc| < limit
    ensures Collect(ranked, i, limit, namespace, agent, join, acc) ==
      if Eligible(ranked[i].0, namespace, agent, join) then Collect(ranked, i + 1, limit, namespace, agent, join, acc + [ResultAt(ranked, i, join)])
      else Collect(ranked, i + 1, limit, namespace, agent, join, acc)
  {
  }

  /** The results are an order-preserving subsequence of the ranked pairs:
      the `k`-th result comes from the eligible pair at `ix[k]`, the
      positions increase, there are at most `limit` of them, and when fewer
      than `limit` came out every eligible pair is among them. */
  lemma CollectSubsequence(ranked: seq<(nat, real)>, limit: int, namespace: Option<string>, agent: Option<string>,
                           join: nat -> Option<Hit>, r: seq<SearchResult>)
    returns (ix: seq<nat>)
    requires r == Collect(ranked, 0, limit, namespace, agent, join, [])
    ensures |ix| == |r|
    ensures |r| <= if limit < 0 then 0 else limit
    ensures forall k :: 0 <= k < |ix| ==>
      ix[k] < |ranked| && Eligible(ranked[ix[k]].0, namespace, agent, join) && r[k] == ResultAt(ranked, ix[k], join)
    ensures forall k, l :: 0 <= k < l < |ix| ==> ix[k] < ix[l]
    ensures |r| < limit ==> forall j :: 0 <= j < |ranked| && Eligible(ranked[j].0, namespace, agent, join) ==> j in ix
  {
    CollectTakes(ranked, 0, limit, namespace, agent, join, []);
    assert [] + Take(Filtered(ranked, 0, namespace, agent, join), limit) == r;
    ix := TakeSubsequence(ranked, limit, namespace, agent, join, r);
  }

  /** `CollectSubsequence` for the reference definition cut at `limit`. */
  lemma TakeSubsequence(ranked: seq<(nat, real)>, limit: int, namespace: Option<string>, agent: Option<string>,
                        join: nat -> Option<Hit>, r: seq<SearchResult>)
    returns (ix: seq<nat>)
    requires r == Take(Filtered(ranked, 0, namespace, agent, join), limit)
    ensures |ix| == |r|
    ensures |r| <= if limit < 0 then 0 else limit
    ensures forall k :: 0 <= k < |ix| ==>
      ix[k] < |ranked| && Eligible(ranked[ix[k]].0, namespace, agent, join) && r[k] == ResultAt(ranked, ix[k], join)
    ensures forall k, l :: 0 <= k < l < |ix| ==> ix[k] < ix[l]
    ensures |r| < limit ==> forall j :: 0 <= j < |ranked| && Eligible(ranked[j].0, namespace, agent, join) ==> j in ix
  {
    var all := Picks(ranked, 0, namespace, agent, join);
    ix := Take(all, limit);
    TakeFiltered(ranked, namespace, agent, join, limit);
  }

  /** The first `n` results of the reference definition come from the
      first `n` eligible positions. */
  lemma TakeFiltered(ranked: seq<(nat, real)>, namespace: Option<string>, agent: Option<string>, join: nat -> Option<Hit>, n: int)
    ensures var ix := Take(Picks(ranked, 0, namespace, agent, join), n);
      && |Take(Filtered(ranked, 0, namespace, agent, join), n)| == |ix|
      && forall k :: 0 <= k < |ix| ==> Take(Filtered(ranked, 0, namespace, agent, join), n)[k] == ResultAt(ranked, ix[k], join)
  {
  }

  /** An element of an increasing sequence that a non-empty prefix leaves
      out lies beyond the prefix's last element. */
  lemma TakeIncreasing(all: seq<nat>, n: int, j: nat)
    requires forall k, l :: 0 <= k < l < |all| ==> all[k] < all[l]
    requires j in all && j !in Take(all, n) && |Take(all, n)| > 0
    ensures Take(all, n)[|Take(all, n)| - 1] < j
  {
    var p :| 0 <= p < |all| && all[p] == j;
  }

  /** Every result reaches the threshold and is the joined row of a kept,
      eligible candidate, with its fused score. */
  lemma ResultsSound(ranked: seq<(nat, real)>, vec: map<nat, real>, fts: map<nat, real>, threshold: real, limit: int,
                     namespace: Option<string>, agent: Option<string>, join: nat -> Option<Hit>, results: seq<SearchResult>)
    requires RankedBy(ranked, vec, fts, threshold)
    requires results == Collect(ranked, 0, limit, namespace, agent, join, [])
    ensures forall k :: 0 <= k < |results| ==> results[k].score >= threshold && exists c: nat ::
      && Kept(vec, fts, threshold, c)
      && Eligible(c, namespace, agent, join)
      && results[k] == ResultOf(join(c).value, FusedScore(vec, fts, c))
  {
    var ix := CollectSubsequence(ranked, limit, namespace, agent, join, results);
    forall k | 0 <= k < |results|
      ensures results[k].score >= threshold && exists c: nat ::
        && Kept(vec, fts, threshold, c)
        && Eligible(c, namespace, agent, join)
        && results[k] == ResultOf(join(c).value, FusedScore(vec, fts, c))
    {
      var c := ranked[ix[k]].0;
      assert Kept(vec, fts, threshold, c) && Eligible(c, namespace, agent, join);
      assert results[k] == ResultOf(join(c).value, FusedScore(vec, fts, c));
    }
  }

  /** The results come out by descending score. */
  lemma ResultsSorted(ranked: seq<(nat, real)>, limit: int, namespace: Option<string>, agent: Option<string>,
                      join: nat -> Option<Hit>, results: seq<SearchResult>)
    requires Order.SortedDesc(ranked)
    requires results == Collect(ranked, 0, limit, namespace, agent, join, [])
    ensures forall k, l :: 0 <= k < l < |results| ==> results[k].score >= results[l].score
  {
    var ix := CollectSubsequence(ranked, limit, namespace, agent, join, results);
    forall k, l | 0 <= k < l < |results|
      ensures results[k].score >= results[l].score
    {
      assert ix[k] < ix[l];
    }
  }

  /** When fewer than `limit` results came out, every kept, eligible
      candidate is among them. */
  lemma ResultsComplete(ranked: seq<(nat, real)>, vec: map<nat, real>, fts: map<nat, real>, threshold: real, limit: int,
                        namespace: Option<string>, agent: Option<string>, join: nat -> Option<Hit>, results: seq<SearchResult>)
    requires RankedBy(ranked, vec, fts, threshold)
    requires results == Collect(ranked, 0, limit, namespace, agent, join, [])
    ensures |results| <= if limit < 0 then 0 else limit
    ensures |results| < limit ==> forall c: nat ::
      Kept(vec, fts, threshold, c) && Eligible(c, namespace, agent, join) ==> ResultOf(join(c).value, FusedScore(vec, fts, c)) in results
  {
    var ix := CollectSubsequence(ranked, limit, namespace, agent, join, results);
    if |results| < limit {
      forall c: nat | Kept(vec, fts, threshold, c) && Eligible(c, namespace, agent, join)
        ensures ResultOf(join(c).value, FusedScore(vec, fts, c)) in results
      {
        assert HasId(ranked, c);
        var i :| 0 <= i < |ranked| && ranked[i].0 == c;
        var k :| 0 <= k < |ix| && ix[k] == i;
        assert results[k] == ResultOf(join(c).value, FusedScore(vec, fts, c));
      }
    }
  }

  /** An eligible ranked pair the results leave out scores at most the last
      result's score. */
  lemma LeftOutBelow(ranked: seq<(nat, real)>, limit: int, namespace: Option<string>, agent: Option<string>,
                     join: nat -> Option<Hit>, results: seq<SearchResult>)
    requires Order.SortedDesc(ranked)
    requires results == Take(Filtered(ranked, 0, namespace, agent, join), limit)
    ensures |results| > 0 ==> forall j :: 0 <= j < |ranked| && Eligible(ranked[j].0, namespace, agent, join) && ResultAt(ranked, j, join) !in results ==>
      ranked[j].1 <= results[|results| - 1].score
  {
    var all := Picks(ranked, 0, namespace, agent, join);
    TakeFiltered(ranked, namespace, agent, join, limit);
    if |results| > 0 {
      forall j | 0 <= j < |ranked| && Eligible(ranked[j].0, namespace, agent, join) && ResultAt(ranked, j, join) !in results
        ensures ranked[j].1 <= results[|results| - 1].score
      {
        TakeIncreasing(all, limit, j);
      }
    }
  }

  /** The results are the top of the ranking: a kept, eligible candidate
      that is left out scores no higher than the last result. */
  lemma ResultsTopK(ranked: seq<(nat, real)>, vec: map<nat, real>, fts: map<nat, real>, threshold: real, limit: int,
                    namespace: Option<string>, agent: Option<string>, join: nat -> Option<Hit>, results: seq<SearchResult>)
    requires RankedBy(ranked, vec, fts, threshold)
    requires results == Collect(ranked, 0, limit, namespace, agent, join, [])
    ensures |results| > 0 ==> forall c: nat ::
      Kept(vec, fts, threshold, c) && Eligible(c, namespace, agent, join) && ResultOf(join(c).value, FusedScore(vec, fts, c)) !in results ==>
      FusedScore(vec, fts, c) <= results[|results| - 1].score
  {
    CollectTakes(ranked, 0, limit, namespace, agent, join, []);
    assert [] + Take(Filtered(ranked, 0, namespace, agent, join), limit) == results;
    LeftOutBelow(ranked, limit, namespace, agent, join, results);
    if |results| > 0 {
      forall c: nat | Kept(vec, fts, threshold, c) && Eligible(c, namespace, agent, join) && ResultOf(join(c).value, FusedScore(vec, fts, c)) !in results
        ensures FusedScore(vec, fts, c) <= results[|results| - 1].score
      {
        assert HasId(ranked, c);
        var j :| 0 <= j < |ranked| && ranked[j].0 == c;
        assert ResultAt(ranked, j, join) == ResultOf(join(c).value, FusedScore(vec, fts, c));
      }
    }
  }

  /** `search(...)`. `dbExists` says whether the store file exists once the
      automatic sync has run; `vecRows` and `ftsRows` are the rows of the two
      queries (`None` when the FTS query raised); `join` is the chunk/file
      join by chunk id. */
  method DoSearch(query: string, dbExists: bool, namespace: Option<string>, agent: Option<string>, limit: int, threshold: real,
                  vecRows: seq<(nat, real)>, ftsRows: Option<seq<(nat, real)>>, join: nat -> Option<Hit>)
    returns (results: seq<SearchResult>)
    ensures IsBlank(query) || !dbExists ==> results == []
    ensures !IsBlank(query) && dbExists ==> TopResults(results, VecScores(vecRows), FtsScores(ftsRows), threshold, limit, namespace, agent, join)
  {
    if IsBlank(query) || !dbExists {
      return [];
    }
    results := SelectResults(VecScores(vecRows), FtsScores(ftsRows), threshold, limit, namespace, agent, join);
  }

  /** What the results of a query are: at most `limit` of them, by
      descending score, each the joined row of a kept, eligible candidate
      with its fused score; all such candidates when fewer than `limit` came
      out, and none left out scoring above the last result. */
  ghost predicate TopResults(results: seq<SearchResult>, vec: map<nat, real>, fts: map<nat, real>, threshold: real, limit: int,
                             namespace: Option<string>, agent: Option<string>, join: nat -> Option<Hit>) {
    && |results| <= (if limit < 0 then 0 else limit)
    && (forall k, l :: 0 <= k < l < |results| ==> results[k].score >= results[l].score)
    && (forall k :: 0 <= k < |results| ==> results[k].score >= threshold && exists c: nat ::
         && Kept(vec, fts, threshold, c)
         && Eligible(c, namespace, agent, join)
         && results[k] == ResultOf(join(c).value, FusedScore(vec, fts, c)))
    && (|results| < limit ==> forall c: nat ::
         Kept(vec, fts, threshold, c) && Eligible(c, namespace, agent, join) ==> ResultOf(join(c).value, FusedScore(vec, fts, c)) in results)
    && (|results| > 0 ==> forall c: nat ::
         && Kept(vec, fts, threshold, c) && Eligible(c, namespace, agent, join)
         && ResultOf(join(c).value, FusedScore(vec, fts, c)) !in results
         ==> FusedScore(vec, fts, c) <= results[|results| - 1].score)
  }

  /** Fusing, ranking and the result loop over a store that exists. */
  method SelectResults(vec: map<nat, real>, fts: map<nat, real>, threshold: real, limit: int,
                       namespace: Option<string>, agent: Option<string>, join: nat -> Option<Hit>)
    returns (results: seq<SearchResult>)
    ensures TopResults(results, vec, fts, threshold, limit, namespace, agent, join)
  {
    var ranked := Rank(vec, fts, threshold);
    results := Collect(ranked, 0, limit, namespace, agent, join, []);
    ResultsSound(ranked, vec, fts, threshold, limit, namespace, agent, join, results);
    ResultsSorted(ranked, limit, namespace, agent, join, results);
    ResultsComplete(ranked, vec, fts, threshold, limit, namespace, agent, join, results);
    ResultsTopK(ranked, vec, fts, threshold, limit, namespace, agent, join, results);
  }

  /** Whether `search` runs the automatic sync before it queries: a blank
      query returns before the staleness test, and any other query syncs
      exactly when the store is stale. */
  method AutoSyncs(query: string, dbExists: bool, d: Db, dirs: seq<ScanDir>) returns (synced: bool)
    ensures synced <==> !IsBlank(query) && Stale(dbExists, StoredMtimes(d), DiskMtimes(dirs))
  {
    if IsBlank(query) {
      return false;
    }
    synced := ShouldAutoSync(dbExists, d, dirs);
  }
}

/** The security audit of a skill directory: every file of the skill that
    is not a binary asset is scanned line by line against five tables of
    patterns, every match becomes a finding whose severity is fixed by its
    category, and the capped weighted total of the findings is the risk
    score that decides the verdict and the exit status.

    The regular-expression engine is the oracle `matches(pattern, line)`
    (a case-insensitive `re.search`), the pattern tables are a parameter,
    and the directory walk is the list of files it yields, each with its
    content, or None when the file cannot be read. */
module Audit {
  import opened Base

  datatype Severity = Critical | High | Medium | Low | Info

  datatype Category = Structure | Network | Credentials | Injection | FileAccess | Dangerous | Access

  datatype Finding = Finding(severity: Severity, category: Category, message: string,
                             file: string, line: nat, pattern: string)

  /** One entry of a pattern table: the regular expression and the message
      of the finding it raises. */
  datatype Rule = Rule(pattern: string, message: string)

  /** The five pattern tables, one per category that is scanned. */
  datatype Tables = Tables(network: seq<Rule>, credentials: seq<Rule>, injection: seq<Rule>,
                           fileAccess: seq<Rule>, dangerous: seq<Rule>)

  /** A file yielded by the walk of the skill directory, with its content
      (None when opening or reading it fails). */
  datatype SkillFile = SkillFile(path: string, content: Option<string>)

  datatype AuditResult = AuditResult(skillPath: string, riskScore: int, findings: seq<Finding>)

  /** What a scan of one file for one category attaches to its findings. */
  datatype Probe = Probe(path: string, category: Category, severity: Severity)

  // ---------------------------------------------------------------------------
  // The lines of a file
  // ---------------------------------------------------------------------------

  /** The lines that iterating over text yields once universal newlines
      have made every line break a '\n': each keeps its terminating '\n',
      only the last may lack one, none is empty. */
  function FileLines(s: string): (r: seq<string>)
    ensures forall k :: 0 <= k < |r| ==> |r[k]| > 0
    ensures forall k, i :: 0 <= k < |r| && 0 <= i < |r[k]| - 1 ==> r[k][i] != '\n'
    ensures forall k :: 0 <= k < |r| - 1 ==> r[k][|r[k]| - 1] == '\n'
    decreases |s|
  {
    if |s| == 0 then []
    else
      var rest := FileLines(s[1..]);
      if s[0] == '\n' || |rest| == 0 then [[s[0]]] + rest
      else [[s[0]] + rest[0]] + rest[1..]
  }

  /** `"".join(lines)` */
  function Concat(lines: seq<string>): string {
    if |lines| == 0 then "" else lines[0] + Concat(lines[1..])
  }

  lemma ConcatGlue(c: char, rest: seq<string>)
    requires |rest| > 0
    ensures Concat([[c] + rest[0]] + rest[1..]) == [c] + Concat(rest)
  {
    var x := [[c] + rest[0]] + rest[1..];
    assert x[1..] == rest[1..];
  }

  /** Concatenating the lines gives back the content. */
  lemma {:induction false} FileLinesJoin(s: string)
    ensures Concat(FileLines(s)) == s
    decreases |s|
  {
    if |s| > 0 {
      var rest := FileLines(s[1..]);
      FileLinesJoin(s[1..]);
      assert s == [s[0]] + s[1..];
      if s[0] == '\n' || |rest| == 0 {
        assert ([[s[0]]] + rest)[1..] == rest;
      } else {
        ConcatGlue(s[0], rest);
      }
    }
  }

  /** The lines of a file opened in text mode: each of its line breaks,
      "\r\n" and a lone '\r' included, ends a line. */
  function TextLines(text: string): seq<string> {
    FileLines(Newlines(text))
  }

  /** Concatenating the lines of a file gives back its text with every line
      break read as '\n'; text without '\r' comes back as it is. */
  lemma TextLinesJoin(text: string)
    ensures Concat(TextLines(text)) == Newlines(text)
    ensures '\r' !in text ==> Concat(TextLines(text)) == text
  {
    FileLinesJoin(Newlines(text));
    if '\r' !in text {
      NewlinesPlain(text);
    }
  }

  // ---------------------------------------------------------------------------
  // Scanning one file against one table
  // ---------------------------------------------------------------------------

  function Hit(p: Probe, rule: Rule, n: nat): Finding {
    Finding(p.severity, p.category, rule.message, p.path, n, rule.pattern)
  }

  /** The findings of the line numbered `n`: one per rule whose pattern
      matches it, in table order. */
  function LineFindings(p: Probe, rules: seq<Rule>, line: string, n: nat,
                        matches: (string, string) -> bool): (r: seq<Finding>)
    ensures |r| <= |rules|
    decreases |rules|
  {
    if |rules| == 0 then []
    else
      var rest := LineFindings(p, rules[1..], line, n, matches);
      if matches(rules[0].pattern, line) then [Hit(p, rules[0], n)] + rest else rest
  }

  /** The findings of `lines`, the first of which is numbered `first`. */
  function ScanLines(p: Probe, rules: seq<Rule>, lines: seq<string>, first: nat,
                     matches: (string, string) -> bool): seq<Finding>
    decreases |lines|
  {
    if |lines| == 0 then []
    else LineFindings(p, rules, lines[0], first, matches) + ScanLines(p, rules, lines[1..], first + 1, matches)
  }

  function AccessFinding(path: string): Finding {
    Finding(Info, Access, "Could not read file: " + path, path, 0, "")
  }

  /** `scan_file`: the lines of a readable file are numbered from 1; a file
      that cannot be read gives one informational finding at line 0. */
  function ScanFile(p: Probe, rules: seq<Rule>, content: Option<string>,
                    matches: (string, string) -> bool): (r: seq<Finding>)
    ensures content.None? ==> |r| == 1 && r[0].severity == Info && r[0].category == Access
                              && r[0].line == 0 && r[0].file == p.path
  {
    match content
    case None => [AccessFinding(p.path)]
    case Some(text) => ScanLines(p, rules, TextLines(text), 1, matches)
  }

  /** Every finding of a line is a match of a rule of the table on that line,
      carrying the probe's file, category and severity. */
  lemma {:induction false} LineFindingsSound(p: Probe, rules: seq<Rule>, line: string, n: nat,
                                             matches: (string, string) -> bool)
    ensures forall f :: f in LineFindings(p, rules, line, n, matches) ==>
              f.line == n && f.file == p.path && f.category == p.category && f.severity == p.severity
              && Rule(f.pattern, f.message) in rules && matches(f.pattern, line)
    decreases |rules|
  {
    if |rules| > 0 {
      LineFindingsSound(p, rules[1..], line, n, matches);
      assert rules == [rules[0]] + rules[1..];
    }
  }

  /** Every rule that matches the line gives a finding. */
  lemma {:induction false} LineFindingsComplete(p: Probe, rules: seq<Rule>, line: string, n: nat,
                                                matches: (string, string) -> bool)
    ensures forall j :: 0 <= j < |rules| && matches(rules[j].pattern, line) ==>
              Hit(p, rules[j], n) in LineFindings(p, rules, line, n, matches)
    decreases |rules|
  {
    if |rules| > 0 {
      LineFindingsComplete(p, rules[1..], line, n, matches);
      forall j | 1 <= j < |rules| && matches(rules[j].pattern, line)
        ensures Hit(p, rules[j], n) in LineFindings(p, rules, line, n, matches)
      {
        assert rules[1..][j - 1] == rules[j];
      }
    }
  }

  /** Every finding of a scan is a match of a rule on the line it names,
      and that line lies in the scanned range. */
  lemma {:induction false} ScanLinesSound(p: Probe, rules: seq<Rule>, lines: seq<string>, first: nat,
                                          matches: (string, string) -> bool)
    ensures forall f :: f in ScanLines(p, rules, lines, first, matches) ==>
              first <= f.line < first + |lines| && f.file == p.path && f.category == p.category
              && f.severity == p.severity && Rule(f.pattern, f.message) in rules
              && matches(f.pattern, lines[f.line - first])
    decreases |lines|
  {
    if |lines| > 0 {
      LineFindingsSound(p, rules, lines[0], first, matches);
      ScanLinesSound(p, rules, lines[1..], first + 1, matches);
    }
  }

  /** Every (line, rule) pair that matches gives a finding at that line. */
  lemma {:induction false} ScanLinesComplete(p: Probe, rules: seq<Rule>, lines: seq<string>, first: nat,
                                             matches: (string, string) -> bool)
    ensures forall i, j :: 0 <= i < |lines| && 0 <= j < |rules| && matches(rules[j].pattern, lines[i]) ==>
              Hit(p, rules[j], first + i) in ScanLines(p, rules, lines, first, matches)
    decreases |lines|
  {
    if |lines| > 0 {
      LineFindingsComplete(p, rules, lines[0], first, matches);
      ScanLinesComplete(p, rules, lines[1..], first + 1, matches);
      forall i, j | 1 <= i < |lines| && 0 <= j < |rules| && matches(rules[j].pattern, lines[i])
        ensures Hit(p, rules[j], first + i) in ScanLines(p, rules, lines, first, matches)
      {
        assert lines[1..][i - 1] == lines[i];
      }
    }
  }

  /** The findings of a scan come line after line. */
  lemma {:induction false} ScanLinesOrdered(p: Probe, rules: seq<Rule>, lines: seq<string>, first: nat,
                                            matches: (string, string) -> bool)
    ensures forall a, b :: 0 <= a < b < |ScanLines(p, rules, lines, first, matches)| ==>
              ScanLines(p, rules, lines, first, matches)[a].line <= ScanLines(p, rules, lines, first, matches)[b].line
    decreases |lines|
  {
    if |lines| > 0 {
      var head := LineFindings(p, rules, lines[0], first, matches);
      var tail := ScanLines(p, rules, lines[1..], first + 1, matches);
      LineFindingsSound(p, rules, lines[0], first, matches);
      ScanLinesSound(p, rules, lines[1..], first + 1, matches);
      ScanLinesOrdered(p, rules, lines[1..], first + 1, matches);
      var all := head + tail;
      forall a, b | 0 <= a < b < |all| ensures all[a].line <= all[b].line {
        if b < |head| {
          assert all[a] in head && all[b] in head;
        } else if a < |head| {
          assert all[a] in head && all[b] == tail[b - |head|];
          assert tail[b - |head|] in tail;
        } else {
          assert all[a] == tail[a - |head|] && all[b] == tail[b - |head|];
        }
      }
    }
  }

  /** `scan_file` on a readable file scans its lines from line 1. */
  lemma ScanFileLines(p: Probe, rules: seq<Rule>, text: string, matches: (string, string) -> bool)
    ensures ScanFile(p, rules, Some(text), matches) == ScanLines(p, rules, TextLines(text), 1, matches)
  {
  }

  /** `scan_file` on a readable file reports line after line. */
  lemma ScanFileOrdered(p: Probe, rules: seq<Rule>, text: string, matches: (string, string) -> bool)
    ensures forall a, b :: 0 <= a < b < |ScanFile(p, rules, Some(text), matches)| ==>
              ScanFile(p, rules, Some(text), matches)[a].line <= ScanFile(p, rules, Some(text), matches)[b].line
  {
    ScanFileLines(p, rules, text, matches);
    ScanLinesOrdered(p, rules, TextLines(text), 1, matches);
  }

  // ---------------------------------------------------------------------------
  // Which files are scanned, and for what
  // ---------------------------------------------------------------------------

  const BinarySuffixes: set<string> :=
    {".png", ".jpg", ".jpeg", ".gif", ".webp", ".ico", ".woff", ".woff2", ".ttf", ".eot", ".pdf", ".zip"}

  /** `PurePath.suffix`: the last '.'-extension of the final component,
      empty when that dot opens or closes the component or there is none. */
  function Suffix(path: string): (r: string)
    ensures r == "" || (|r| >= 2 && r[0] == '.' && EndsWith(path, r))
  {
    var name := Basename(path);
    var i := RFind(name, '.');
    if 0 < i < |name| - 1 then
      BasenameEnds(path);
      SuffixEnds(path, name, i);
      name[i..]
    else ""
  }

  lemma BasenameEnds(path: string)
    ensures EndsWith(path, Basename(path))
  {
  }

  lemma SuffixEnds(path: string, name: string, i: nat)
    requires EndsWith(path, name) && i <= |name|
    ensures EndsWith(path, name[i..])
  {
    assert path[|path| - |name[i..]|..] == path[|path| - |name|..][i..];
  }

  predicate IsBinary(path: string) {
    Lower(Suffix(path)) in BinarySuffixes
  }

  /** The severity every finding of a category carries. */
  function CategorySeverity(c: Category, strict: bool): Severity {
    match c
    case Structure => Critical
    case Network => High
    case Credentials => Critical
    case Injection => Critical
    case FileAccess => if strict then High else Medium
    case Dangerous => Critical
    case Access => Info
  }

  /** The order in which the categories are scanned. */
  function Rank(c: Category): nat {
    match c
    case Network => 0
    case Credentials => 1
    case Injection => 2
    case FileAccess => 3
    case Dangerous => 4
    case _ => 5
  }

  function Scan(path: string, c: Category, strict: bool, rules: seq<Rule>, content: Option<string>,
                matches: (string, string) -> bool): seq<Finding> {
    ScanFile(Probe(path, c, CategorySeverity(c, strict)), rules, content, matches)
  }

  /** The findings of one file, category after category. */
  function FileFindings(f: SkillFile, t: Tables, strict: bool, matches: (string, string) -> bool): seq<Finding> {
    Scan(f.path, Network, strict, t.network, f.content, matches)
    + Scan(f.path, Credentials, strict, t.credentials, f.content, matches)
    + Scan(f.path, Injection, strict, t.injection, f.content, matches)
    + Scan(f.path, FileAccess, strict, t.fileAccess, f.content, matches)
    + Scan(f.path, Dangerous, strict, t.dangerous, f.content, matches)
  }

  /** The findings of the walk, file after file, binary files skipped. */
  function WalkFindings(files: seq<SkillFile>, t: Tables, strict: bool, matches: (string, string) -> bool): seq<Finding>
    decreases |files|
  {
    if |files| == 0 then []
    else
      var last := files[|files| - 1];
      WalkFindings(files[..|files| - 1], t, strict, matches)
      + (if IsBinary(last.path) then [] else FileFindings(last, t, strict, matches))
  }

  // ---------------------------------------------------------------------------
  // Scoring
  // ---------------------------------------------------------------------------

  function Weight(s: Severity): nat {
    match s
    case Critical => 25
    case High => 15
    case Medium => 5
    case Low => 2
    case Info => 0
  }

  function TotalWeight(fs: seq<Finding>): nat
    decreases |fs|
  {
    if |fs| == 0 then 0 else TotalWeight(fs[..|fs| - 1]) + Weight(fs[|fs| - 1].severity)
  }

  /** `min(100, total_weight)`. */
  function RiskScore(fs: seq<Finding>): (r: nat)
    ensures r <= 100
    ensures r <= TotalWeight(fs)
    ensures r == 100 || r == TotalWeight(fs)
  {
    if TotalWeight(fs) < 100 then TotalWeight(fs) else 100
  }

  const NoSkillMessage: string := "No SKILL.md found \U{2014} not a valid skill"

  /** The root pathlib keeps in front of a POSIX path: exactly two leading
      slashes stay two, one or three and more become one. */
  function Anchor(path: string): (r: string)
    ensures r == "" <==> |path| == 0 || path[0] != '/'
    ensures r == "//" <==> |path| >= 2 && path[0] == '/' && path[1] == '/' && (|path| == 2 || path[2] != '/')
    ensures r == "" || r == "/" || r == "//"
  {
    if |path| == 0 || path[0] != '/' then ""
    else if |path| >= 2 && path[1] == '/' && (|path| == 2 || path[2] != '/') then "//"
    else "/"
  }

  /** The pieces pathlib keeps of the '/'-separated pieces `ps`: all but the
      empty ones and the "." ones, in order. */
  function CleanParts(ps: seq<string>): (r: seq<string>)
    ensures |r| <= |ps|
    ensures forall i :: 0 <= i < |r| ==> r[i] in ps && r[i] != "" && r[i] != "."
    ensures forall i :: 0 <= i < |ps| && ps[i] != "" && ps[i] != "." ==> ps[i] in r
    decreases |ps|
  {
    if |ps| == 0 then []
    else if ps[0] == "" || ps[0] == "." then CleanParts(ps[1..])
    else [ps[0]] + CleanParts(ps[1..])
  }

  /** The parts of `Path(path)` after its anchor. */
  function PathParts(path: string): (r: seq<string>)
    ensures forall i :: 0 <= i < |r| ==> r[i] != "" && r[i] != "." && '/' !in r[i]
  {
    SplitNoChar(path, '/');
    CleanParts(Split(path, '/'))
  }

  /** `str(Path(root) / "SKILL.md")`: pathlib drops empty and "." pieces of
      the root and keeps its anchor. */
  function SkillMdPath(root: string): string {
    Anchor(root) + Join(PathParts(root) + ["SKILL.md"], "/")
  }

  /** Pieces that pathlib keeps all of come back unchanged. */
  lemma {:induction false} CleanKeeps(ps: seq<string>)
    requires forall i :: 0 <= i < |ps| ==> ps[i] != "" && ps[i] != "."
    ensures CleanParts(ps) == ps
    decreases |ps|
  {
    if |ps| > 0 {
      CleanKeeps(ps[1..]);
    }
  }

  /** A trailing empty piece is dropped. */
  lemma {:induction false} CleanSnocEmpty(ps: seq<string>)
    ensures CleanParts(ps + [""]) == CleanParts(ps)
    decreases |ps|
  {
    if |ps| == 0 {
      assert CleanParts([""]) == CleanParts([""][1..]);
    } else {
      assert (ps + [""])[1..] == ps[1..] + [""];
      CleanSnocEmpty(ps[1..]);
    }
  }

  /** On a relative root with no empty and no "." piece, pathlib changes
      nothing and the file sits at `root + "/SKILL.md"`. */
  lemma SkillMdClean(root: string)
    requires forall k :: 0 <= k < |Split(root, '/')| ==> Split(root, '/')[k] != "" && Split(root, '/')[k] != "."
    ensures SkillMdPath(root) == root + "/SKILL.md"
  {
    CleanKeeps(Split(root, '/'));
    SplitFirstEmpty(root, '/');
    JoinSplit(root, '/');
    SkillMdJoined(root, Split(root, '/'));
  }

  /** A relative root whose kept parts join back to it gets "/SKILL.md"
      appended. */
  lemma SkillMdJoined(root: string, ps: seq<string>)
    requires Anchor(root) == "" && PathParts(root) == ps && |ps| >= 1 && Join(ps, "/") == root
    ensures SkillMdPath(root) == root + "/SKILL.md"
  {
    JoinAppend(ps, "SKILL.md", "/");
    assert "" + (root + "/" + "SKILL.md") == root + ("/" + "SKILL.md");
  }

  /** The first piece of a split is empty when the string is empty or
      starts with the separator. */
  lemma SplitFirstEmpty(s: string, c: char)
    ensures Split(s, c)[0] == "" <==> |s| == 0 || s[0] == c
  {
  }

  /** A trailing slash on the root makes no difference, apart from the roots
      that are nothing but one or two slashes, whose anchor it changes. */
  lemma SkillMdTrailingSlash(root: string)
    requires |root| > 0 && root != "/" && root != "//"
    ensures SkillMdPath(root + "/") == SkillMdPath(root)
  {
    SplitConcat(root, '/', "");
    assert root + ['/'] + "" == root + "/";
    CleanSnocEmpty(Split(root, '/'));
  }

  /** The current directory "." gives the bare name "SKILL.md". */
  lemma SkillMdDot()
    ensures SkillMdPath(".") == "SKILL.md"
  {
    SplitNoSep(".", '/');
    assert CleanParts(["."]) == CleanParts(["."][1..]);
  }

  /** `audit_skill`: a directory without `SKILL.md` is rejected outright;
      otherwise the walk is scanned and its findings scored. */
  function AuditSkill(root: string, hasSkillMd: bool, files: seq<SkillFile>, strict: bool, t: Tables,
                      matches: (string, string) -> bool): (r: AuditResult)
    ensures r.skillPath == root && 0 <= r.riskScore <= 100
  {
    if !hasSkillMd then
      AuditResult(root, 100, [Finding(Critical, Structure, NoSkillMessage, SkillMdPath(root), 0, "")])
    else
      var fs := WalkFindings(files, t, strict, matches);
      AuditResult(root, RiskScore(fs), fs)
  }

  datatype Verdict = LowRisk | MediumRisk | HighRisk | CriticalRisk

  /** `AuditResult.verdict` */
  function VerdictOf(score: int): (v: Verdict)
    ensures v == LowRisk <==> score <= 20
    ensures v == MediumRisk <==> 20 < score <= 50
    ensures v == HighRisk <==> 50 < score <= 80
    ensures v == CriticalRisk <==> 80 < score
  {
    if score <= 20 then LowRisk
    else if score <= 50 then MediumRisk
    else if score <= 80 then HighRisk
    else CriticalRisk
  }

  function VerdictText(v: Verdict): string {
    match v
    case LowRisk => "LOW RISK \U{2014} Auto-approved"
    case MediumRisk => "MEDIUM RISK \U{2014} Review recommended"
    case HighRisk => "HIGH RISK \U{2014} Manual review required"
    case CriticalRisk => "CRITICAL RISK \U{2014} Do not install without thorough review"
  }

  /** The exit status of a completed audit. */
  function ExitCode(score: int): (code: int)
    ensures code == 2 <==> VerdictOf(score) == CriticalRisk
    ensures code == 1 <==> VerdictOf(score) == HighRisk
    ensures code == 0 <==> VerdictOf(score) == LowRisk || VerdictOf(score) == MediumRisk
  {
    if score > 80 then 2 else if score > 50 then 1 else 0
  }

  /** The audit `main` runs for `argv` once it has a directory to audit:
      `--strict` anywhere on the command line selects strict mode. */
  function Audited(argv: seq<string>, hasSkillMd: string -> bool, walk: string -> seq<SkillFile>,
                   t: Tables, matches: (string, string) -> bool): AuditResult
    requires |argv| >= 2
  {
    AuditSkill(argv[1], hasSkillMd(argv[1]), walk(argv[1]), "--strict" in argv, t, matches)
  }

  /** `main`: `argv` includes the program name; the file system is given by
      which paths are directories, which directories hold a `SKILL.md`, and
      what a walk of a directory yields. */
  function Main(argv: seq<string>, isDir: string -> bool, hasSkillMd: string -> bool,
                walk: string -> seq<SkillFile>, t: Tables, matches: (string, string) -> bool): (code: int)
    ensures code == 2 <==> |argv| >= 2 && isDir(argv[1])
                           && VerdictOf(Audited(argv, hasSkillMd, walk, t, matches).riskScore) == CriticalRisk
    ensures code == 0 <==> |argv| >= 2 && isDir(argv[1])
                           && VerdictOf(Audited(argv, hasSkillMd, walk, t, matches).riskScore) in {LowRisk, MediumRisk}
    ensures code == 1 <==> |argv| < 2 || !isDir(argv[1])
                           || VerdictOf(Audited(argv, hasSkillMd, walk, t, matches).riskScore) == HighRisk
  {
    if |argv| < 2 then 1
    else if !isDir(argv[1]) then 1
    else ExitCode(Audited(argv, hasSkillMd, walk, t, matches).riskScore)
  }

  // ---------------------------------------------------------------------------
  // Properties of a file's findings
  // ---------------------------------------------------------------------------

  /** The table scanned for a category (none for the others). */
  function RulesOf(t: Tables, c: Category): seq<Rule> {
    match c
    case Network => t.network
    case Credentials => t.credentials
    case Injection => t.injection
    case FileAccess => t.fileAccess
    case Dangerous => t.dangerous
    case _ => []
  }

  predicate Scanned(c: Category) {
    Rank(c) < 5
  }

  /** What every finding of a file satisfies: it names the file, its
      severity is its category's, and it sits at line 0 exactly when it
      reports that the file could not be read. */
  predicate Belongs(g: Finding, f: SkillFile, strict: bool) {
    && g.file == f.path
    && g.severity == CategorySeverity(g.category, strict)
    && (Scanned(g.category) || g.category == Access)
    && (g.category == Access <==> g.line == 0)
    && (g.category == Access ==> f.content.None?)
  }

  lemma ScanBelongs(f: SkillFile, c: Category, strict: bool, rules: seq<Rule>, matches: (string, string) -> bool)
    requires Scanned(c)
    ensures forall g :: g in Scan(f.path, c, strict, rules, f.content, matches) ==>
              Belongs(g, f, strict) && (f.content.Some? ==> g.category == c)
  {
    if f.content.Some? {
      var p := Probe(f.path, c, CategorySeverity(c, strict));
      ScanFileLines(p, rules, f.content.value, matches);
      ScanLinesSound(p, rules, TextLines(f.content.value), 1, matches);
    }
  }

  lemma FileBelongs(f: SkillFile, t: Tables, strict: bool, matches: (string, string) -> bool)
    ensures forall g :: g in FileFindings(f, t, strict, matches) ==> Belongs(g, f, strict)
  {
    ScanBelongs(f, Network, strict, t.network, matches);
    ScanBelongs(f, Credentials, strict, t.credentials, matches);
    ScanBelongs(f, Injection, strict, t.injection, matches);
    ScanBelongs(f, FileAccess, strict, t.fileAccess, matches);
    ScanBelongs(f, Dangerous, strict, t.dangerous, matches);
  }

  predicate RankSorted(fs: seq<Finding>) {
    forall a, b :: 0 <= a < b < |fs| ==> Rank(fs[a].category) <= Rank(fs[b].category)
  }

  lemma RankSortedAppend(x: seq<Finding>, y: seq<Finding>, r: nat)
    requires RankSorted(x)
    requires forall g :: g in x ==> Rank(g.category) <= r
    requires forall g :: g in y ==> Rank(g.category) == r
    ensures RankSorted(x + y)
    ensures forall g :: g in x + y ==> Rank(g.category) <= r
  {
    forall a, b | 0 <= a < b < |x + y| ensures Rank((x + y)[a].category) <= Rank((x + y)[b].category) {
      if b < |x| {
        assert (x + y)[a] == x[a] && (x + y)[b] == x[b];
      } else if a < |x| {
        assert (x + y)[a] in x && (x + y)[b] in y;
      } else {
        assert (x + y)[a] in y && (x + y)[b] in y;
      }
    }
  }

  /** Within a readable file the findings come category by category, in
      the order network, credentials, injection, file access, dangerous. */
  lemma FileOrdered(f: SkillFile, t: Tables, strict: bool, matches: (string, string) -> bool)
    requires f.content.Some?
    ensures RankSorted(FileFindings(f, t, strict, matches))
  {
    var n := Scan(f.path, Network, strict, t.network, f.content, matches);
    var c := Scan(f.path, Credentials, strict, t.credentials, f.content, matches);
    var i := Scan(f.path, Injection, strict, t.injection, f.content, matches);
    var a := Scan(f.path, FileAccess, strict, t.fileAccess, f.content, matches);
    var d := Scan(f.path, Dangerous, strict, t.dangerous, f.content, matches);
    ScanBelongs(f, Network, strict, t.network, matches);
    ScanBelongs(f, Credentials, strict, t.credentials, matches);
    ScanBelongs(f, Injection, strict, t.injection, matches);
    ScanBelongs(f, FileAccess, strict, t.fileAccess, matches);
    ScanBelongs(f, Dangerous, strict, t.dangerous, matches);
    RankSortedAppend([], n, 0);
    assert [] + n == n;
    RankSortedAppend(n, c, 1);
    RankSortedAppend(n + c, i, 2);
    RankSortedAppend(n + c + i, a, 3);
    RankSortedAppend(n + c + i + a, d, 4);
  }

  /** A file that cannot be read raises one informational finding per
      category, and nothing else. */
  lemma FileUnreadable(f: SkillFile, t: Tables, strict: bool, matches: (string, string) -> bool)
    requires f.content.None?
    ensures FileFindings(f, t, strict, matches) == seq(5, _ => AccessFinding(f.path))
  {
  }

  /** Every match of a rule of a scanned category on a line of a readable
      file gives the finding of that category at that line. */
  lemma FileComplete(f: SkillFile, t: Tables, strict: bool, matches: (string, string) -> bool,
                     c: Category, line: nat, rule: Rule)
    requires f.content.Some? && Scanned(c)
    requires line < |TextLines(f.content.value)| && rule in RulesOf(t, c)
    requires matches(rule.pattern, TextLines(f.content.value)[line])
    ensures Hit(Probe(f.path, c, CategorySeverity(c, strict)), rule, line + 1) in FileFindings(f, t, strict, matches)
  {
    var j :| 0 <= j < |RulesOf(t, c)| && RulesOf(t, c)[j] == rule;
    var p := Probe(f.path, c, CategorySeverity(c, strict));
    ScanFileLines(p, RulesOf(t, c), f.content.value, matches);
    ScanLinesComplete(p, RulesOf(t, c), TextLines(f.content.value), 1, matches);
    assert Hit(Probe(f.path, c, CategorySeverity(c, strict)), rule, line + 1) in Scan(f.path, c, strict, RulesOf(t, c), f.content, matches);
  }

  // ---------------------------------------------------------------------------
  // Properties of the audit
  // ---------------------------------------------------------------------------

  lemma WalkSnoc(files: seq<SkillFile>, f: SkillFile, t: Tables, strict: bool, matches: (string, string) -> bool)
    ensures WalkFindings(files + [f], t, strict, matches)
         == WalkFindings(files, t, strict, matches) + (if IsBinary(f.path) then [] else FileFindings(f, t, strict, matches))
  {
    assert (files + [f])[..|files|] == files;
  }

  /** `g` belongs to a file of `files` that is not binary. */
  ghost predicate FromFiles(g: Finding, files: seq<SkillFile>, strict: bool) {
    exists i :: 0 <= i < |files| && !IsBinary(files[i].path) && Belongs(g, files[i], strict)
  }

  lemma FromInit(g: Finding, files: seq<SkillFile>, strict: bool)
    requires |files| > 0 && FromFiles(g, files[..|files| - 1], strict)
    ensures FromFiles(g, files, strict)
  {
    var i :| 0 <= i < |files| - 1 && !IsBinary(files[..|files| - 1][i].path) && Belongs(g, files[..|files| - 1][i], strict);
    assert files[i] == files[..|files| - 1][i];
  }

  lemma FromLast(g: Finding, files: seq<SkillFile>, strict: bool)
    requires |files| > 0 && !IsBinary(files[|files| - 1].path) && Belongs(g, files[|files| - 1], strict)
    ensures FromFiles(g, files, strict)
  {
  }

  /** Every finding of the walk belongs to a file of the walk that is not
      binary. */
  lemma {:induction false} WalkSound(files: seq<SkillFile>, t: Tables, strict: bool, matches: (string, string) -> bool)
    ensures forall g :: g in WalkFindings(files, t, strict, matches) ==> FromFiles(g, files, strict)
    decreases |files|
  {
    if |files| > 0 {
      var init, last := files[..|files| - 1], files[|files| - 1];
      WalkSound(init, t, strict, matches);
      FileBelongs(last, t, strict, matches);
      var w := WalkFindings(init, t, strict, matches);
      var extra := if IsBinary(last.path) then [] else FileFindings(last, t, strict, matches);
      assert WalkFindings(files, t, strict, matches) == w + extra;
      forall g | g in w + extra ensures FromFiles(g, files, strict) {
        if g in w {
          FromInit(g, files, strict);
        } else {
          FromLast(g, files, strict);
        }
      }
    }
  }

  /** Every finding of a file that is not binary is a finding of the walk. */
  lemma {:induction false} WalkComplete(files: seq<SkillFile>, t: Tables, strict: bool, matches: (string, string) -> bool)
    ensures forall i, g :: 0 <= i < |files| && !IsBinary(files[i].path) && g in FileFindings(files[i], t, strict, matches) ==>
              g in WalkFindings(files, t, strict, matches)
    decreases |files|
  {
    if |files| > 0 {
      var init := files[..|files| - 1];
      WalkComplete(init, t, strict, matches);
      forall i, g | 0 <= i < |files| - 1 && !IsBinary(files[i].path) && g in FileFindings(files[i], t, strict, matches)
        ensures g in WalkFindings(files, t, strict, matches)
      {
        assert init[i] == files[i];
      }
    }
  }

  /** With `SKILL.md` present, every finding names a scanned, non-binary
      file, carries its category's severity, and is at line 0 exactly when
      it reports an unreadable file. */
  lemma AuditSound(root: string, files: seq<SkillFile>, strict: bool, t: Tables, matches: (string, string) -> bool)
    ensures forall g :: g in AuditSkill(root, true, files, strict, t, matches).findings ==> FromFiles(g, files, strict)
  {
    WalkSound(files, t, strict, matches);
  }

  /** With `SKILL.md` present, every match of a rule on a line of a readable,
      non-binary file is reported with its category's severity. */
  lemma AuditComplete(root: string, files: seq<SkillFile>, strict: bool, t: Tables, matches: (string, string) -> bool,
                      i: nat, c: Category, line: nat, rule: Rule)
    requires i < |files| && !IsBinary(files[i].path) && files[i].content.Some? && Scanned(c)
    requires line < |TextLines(files[i].content.value)| && rule in RulesOf(t, c)
    requires matches(rule.pattern, TextLines(files[i].content.value)[line])
    ensures Finding(CategorySeverity(c, strict), c, rule.message, files[i].path, line + 1, rule.pattern)
            in AuditSkill(root, true, files, strict, t, matches).findings
  {
    FileComplete(files[i], t, strict, matches, c, line, rule);
    WalkComplete(files, t, strict, matches);
  }

  /** Without `SKILL.md` nothing is scanned: one critical structure finding
      and the highest score. */
  lemma NoSkillMd(root: string, files: seq<SkillFile>, strict: bool, t: Tables, matches: (string, string) -> bool)
    ensures var r := AuditSkill(root, false, files, strict, t, matches);
            |r.findings| == 1 && r.findings[0].severity == Critical && r.findings[0].category == Structure
            && r.riskScore == 100 && VerdictOf(r.riskScore) == CriticalRisk && ExitCode(r.riskScore) == 2
  {
  }

  /** A directory without `SKILL.md` always exits with status 2. */
  lemma NoSkillMdExit(argv: seq<string>, isDir: string -> bool, hasSkillMd: string -> bool,
                      walk: string -> seq<SkillFile>, t: Tables, matches: (string, string) -> bool)
    requires |argv| >= 2 && isDir(argv[1]) && !hasSkillMd(argv[1])
    ensures Main(argv, isDir, hasSkillMd, walk, t, matches) == 2
  {
    NoSkillMd(argv[1], walk(argv[1]), "--strict" in argv, t, matches);
  }

  // ---------------------------------------------------------------------------
  // Properties of the score
  // ---------------------------------------------------------------------------

  lemma {:induction false} TotalAppend(a: seq<Finding>, b: seq<Finding>)
    ensures TotalWeight(a + b) == TotalWeight(a) + TotalWeight(b)
    decreases |b|
  {
    if |b| > 0 {
      TotalAppend(a, b[..|b| - 1]);
      assert (a + b)[..|a + b| - 1] == a + b[..|b| - 1];
    } else {
      assert a + b == a;
    }
  }

  /** Adding findings never lowers the score. */
  lemma ScoreGrows(a: seq<Finding>, b: seq<Finding>)
    ensures RiskScore(a + b) >= RiskScore(a)
  {
    TotalAppend(a, b);
  }

  /** Adding informational findings leaves the score unchanged. */
  lemma {:induction false} InfoWeightless(fs: seq<Finding>)
    requires forall k :: 0 <= k < |fs| ==> fs[k].severity == Info
    ensures TotalWeight(fs) == 0
    decreases |fs|
  {
    if |fs| > 0 {
      InfoWeightless(fs[..|fs| - 1]);
    }
  }

  /** A skill that gains a file never scores lower. */
  lemma MoreFilesNoLower(root: string, hasSkillMd: bool, files: seq<SkillFile>, f: SkillFile, strict: bool,
                         t: Tables, matches: (string, string) -> bool)
    ensures AuditSkill(root, hasSkillMd, files + [f], strict, t, matches).riskScore
         >= AuditSkill(root, hasSkillMd, files, strict, t, matches).riskScore
  {
    WalkSnoc(files, f, t, strict, matches);
    ScoreGrows(WalkFindings(files, t, strict, matches),
               if IsBinary(f.path) then [] else FileFindings(f, t, strict, matches));
  }

  /** A file that cannot be read does not change the score. */
  lemma UnreadableNoRisk(root: string, hasSkillMd: bool, files: seq<SkillFile>, f: SkillFile, strict: bool,
                         t: Tables, matches: (string, string) -> bool)
    requires f.content.None?
    ensures AuditSkill(root, hasSkillMd, files + [f], strict, t, matches).riskScore
         == AuditSkill(root, hasSkillMd, files, strict, t, matches).riskScore
  {
    var extra := if IsBinary(f.path) then [] else FileFindings(f, t, strict, matches);
    WalkSnoc(files, f, t, strict, matches);
    FileUnreadable(f, t, strict, matches);
    InfoWeightless(extra);
    TotalAppend(WalkFindings(files, t, strict, matches), extra);
  }

  /** The number of findings of a severity. */
  function Num(fs: seq<Finding>, s: Severity): (n: nat)
    ensures n <= |fs|
    decreases |fs|
  {
    if |fs| == 0 then 0 else Num(fs[..|fs| - 1], s) + (if fs[|fs| - 1].severity == s then 1 else 0)
  }

  /** The total weight counts each severity with its weight. */
  lemma {:induction false} WeightByCounts(fs: seq<Finding>)
    ensures TotalWeight(fs) == 25 * Num(fs, Critical) + 15 * Num(fs, High) + 5 * Num(fs, Medium) + 2 * Num(fs, Low)
    decreases |fs|
  {
    if |fs| > 0 {
      WeightByCounts(fs[..|fs| - 1]);
    }
  }

  /** Four critical findings are enough for the highest score. */
  lemma FourCriticals(fs: seq<Finding>)
    requires Num(fs, Critical) >= 4
    ensures RiskScore(fs) == 100 && ExitCode(RiskScore(fs)) == 2
  {
    WeightByCounts(fs);
  }

  /** A single critical finding and nothing else passes as medium risk. */
  lemma OneCriticalPasses(g: Finding)
    requires g.severity == Critical
    ensures RiskScore([g]) == 25 && VerdictOf(RiskScore([g])) == MediumRisk && ExitCode(RiskScore([g])) == 0
  {
    assert [g][..0] == [];
    assert TotalWeight([g]) == TotalWeight([]) + Weight(g.severity);
  }

  lemma {:induction false} LineFindingsLength(p: Probe, q: Probe, rules: seq<Rule>, line: string, n: nat,
                                              matches: (string, string) -> bool)
    ensures |LineFindings(p, rules, line, n, matches)| == |LineFindings(q, rules, line, n, matches)|
    decreases |rules|
  {
    if |rules| > 0 {
      LineFindingsLength(p, q, rules[1..], line, n, matches);
    }
  }

  /** How many findings a scan raises does not depend on what it attaches
      to them. */
  lemma {:induction false} ScanLinesLength(p: Probe, q: Probe, rules: seq<Rule>, lines: seq<string>, first: nat,
                                           matches: (string, string) -> bool)
    ensures |ScanLines(p, rules, lines, first, matches)| == |ScanLines(q, rules, lines, first, matches)|
    decreases |lines|
  {
    if |lines| > 0 {
      LineFindingsLength(p, q, rules, lines[0], first, matches);
      ScanLinesLength(p, q, rules, lines[1..], first + 1, matches);
    }
  }

  lemma {:induction false} UniformWeight(fs: seq<Finding>, s: Severity)
    requires forall k :: 0 <= k < |fs| ==> fs[k].severity == s
    ensures TotalWeight(fs) == Weight(s) * |fs|
    decreases |fs|
  {
    if |fs| > 0 {
      UniformWeight(fs[..|fs| - 1], s);
    }
  }

  lemma FileAccessStricter(f: SkillFile, rules: seq<Rule>, matches: (string, string) -> bool)
    ensures TotalWeight(Scan(f.path, FileAccess, true, rules, f.content, matches))
         >= TotalWeight(Scan(f.path, FileAccess, false, rules, f.content, matches))
  {
    if f.content.Some? {
      var hi, lo := Probe(f.path, FileAccess, High), Probe(f.path, FileAccess, Medium);
      ScanFileLines(hi, rules, f.content.value, matches);
      ScanFileLines(lo, rules, f.content.value, matches);
      LinesStricter(f.path, rules, TextLines(f.content.value), matches);
    }
  }

  /** The same lines scanned at high severity weigh at least as much as at
      medium severity. */
  lemma LinesStricter(path: string, rules: seq<Rule>, lines: seq<string>, matches: (string, string) -> bool)
    ensures TotalWeight(ScanLines(Probe(path, FileAccess, High), rules, lines, 1, matches))
         >= TotalWeight(ScanLines(Probe(path, FileAccess, Medium), rules, lines, 1, matches))
  {
    var hi, lo := Probe(path, FileAccess, High), Probe(path, FileAccess, Medium);
    ScanLinesLength(hi, lo, rules, lines, 1, matches);
    ScanSeverity(hi, rules, lines, matches);
    ScanSeverity(lo, rules, lines, matches);
    HighOutweighs(ScanLines(hi, rules, lines, 1, matches), ScanLines(lo, rules, lines, 1, matches));
  }

  /** As many high findings as medium ones weigh at least as much. */
  lemma HighOutweighs(a: seq<Finding>, b: seq<Finding>)
    requires |a| == |b|
    requires forall k :: 0 <= k < |a| ==> a[k].severity == High
    requires forall k :: 0 <= k < |b| ==> b[k].severity == Medium
    ensures TotalWeight(a) >= TotalWeight(b)
  {
    UniformWeight(a, High);
    UniformWeight(b, Medium);
  }

  /** Every finding of a scan carries the probe's severity. */
  lemma ScanSeverity(p: Probe, rules: seq<Rule>, lines: seq<string>, matches: (string, string) -> bool)
    ensures forall k :: 0 <= k < |ScanLines(p, rules, lines, 1, matches)| ==>
              ScanLines(p, rules, lines, 1, matches)[k].severity == p.severity
  {
    var fs := ScanLines(p, rules, lines, 1, matches);
    ScanLinesSound(p, rules, lines, 1, matches);
    forall k | 0 <= k < |fs|
      ensures fs[k].severity == p.severity
    {
      assert fs[k] in fs;
    }
  }

  lemma FileStricter(f: SkillFile, t: Tables, matches: (string, string) -> bool)
    ensures TotalWeight(FileFindings(f, t, true, matches)) >= TotalWeight(FileFindings(f, t, false, matches))
  {
    var n := Scan(f.path, Network, true, t.network, f.content, matches);
    var c := Scan(f.path, Credentials, true, t.credentials, f.content, matches);
    var i := Scan(f.path, Injection, true, t.injection, f.content, matches);
    var hi := Scan(f.path, FileAccess, true, t.fileAccess, f.content, matches);
    var lo := Scan(f.path, FileAccess, false, t.fileAccess, f.content, matches);
    var d := Scan(f.path, Dangerous, true, t.dangerous, f.content, matches);
    assert FileFindings(f, t, true, matches) == n + c + i + hi + d;
    assert FileFindings(f, t, false, matches) == n + c + i + lo + d;
    TotalAppend(n + c + i + hi, d);
    TotalAppend(n + c + i + lo, d);
    TotalAppend(n + c + i, hi);
    TotalAppend(n + c + i, lo);
    FileAccessStricter(f, t.fileAccess, matches);
  }

  lemma {:induction false} WalkStricter(files: seq<SkillFile>, t: Tables, matches: (string, string) -> bool)
    ensures TotalWeight(WalkFindings(files, t, true, matches)) >= TotalWeight(WalkFindings(files, t, false, matches))
    decreases |files|
  {
    if |files| > 0 {
      var init, last := files[..|files| - 1], files[|files| - 1];
      WalkStricter(init, t, matches);
      var hi := if IsBinary(last.path) then [] else FileFindings(last, t, true, matches);
      var lo := if IsBinary(last.path) then [] else FileFindings(last, t, false, matches);
      FileStricter(last, t, matches);
      TotalAppend(WalkFindings(init, t, true, matches), hi);
      TotalAppend(WalkFindings(init, t, false, matches), lo);
    }
  }

  /** Strict mode never lowers the score. */
  lemma StrictNoLower(root: string, hasSkillMd: bool, files: seq<SkillFile>, t: Tables, matches: (string, string) -> bool)
    ensures AuditSkill(root, hasSkillMd, files, true, t, matches).riskScore
         >= AuditSkill(root, hasSkillMd, files, false, t, matches).riskScore
  {
    WalkStricter(files, t, matches);
  }
}

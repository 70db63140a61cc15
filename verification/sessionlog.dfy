/** The session journal: the logger that appends one timestamped line per
    event to `.forge/memory/sessions/YYYY-MM-DD.md`, and the consolidation
    step that reads those journals back, groups their entries by story and
    appends a dated summary section to `MEMORY.md`.

    Files are modelled by their contents (a string), read back through
    universal newlines and split on '\n' into lines; the clock is a pair of parameters (the date and the
    time of day); a directory listing is a sequence of names. */
module SessionLog {
  import opened Base
  import Order

  // ---------------------------------------------------------------------------
  // Dates, times and the entry line
  // ---------------------------------------------------------------------------

  /** `strftime("%H:%M:%S")` output, as the entry pattern's `\d{2}:\d{2}:\d{2}` sees it. */
  predicate IsTime(t: string) {
    && |t| == 8
    && IsDigit(t[0]) && IsDigit(t[1]) && t[2] == ':'
    && IsDigit(t[3]) && IsDigit(t[4]) && t[5] == ':'
    && IsDigit(t[6]) && IsDigit(t[7])
  }

  /** `strftime("%Y-%m-%d")` output, as the marker pattern's `\d{4}-\d{2}-\d{2}` sees it. */
  predicate IsDate(d: string) {
    && |d| == 10
    && IsDigit(d[0]) && IsDigit(d[1]) && IsDigit(d[2]) && IsDigit(d[3]) && d[4] == '-'
    && IsDigit(d[5]) && IsDigit(d[6]) && d[7] == '-'
    && IsDigit(d[8]) && IsDigit(d[9])
  }

  const EmDash: char := '\U{2014}'

  /** The separator between the tags of an entry and its message. */
  const Dash: string := " \U{2014} "

  /** The optional ` [agent]` tag, written only for a non-empty agent. */
  function AgentTag(agent: Option<string>): string {
    if Truthy(agent) then " [" + agent.value + "]" else ""
  }

  /** The optional ` (story)` tag, written only for a non-empty story. */
  function StoryTag(story: Option<string>): string {
    if Truthy(story) then " (" + story.value + ")" else ""
  }

  /** What the logger writes before the message: the time stamp, the tags
      and the dash. */
  function Prefix(time: string, agent: Option<string>, story: Option<string>): string {
    "- **" + time + "**" + AgentTag(agent) + StoryTag(story) + Dash
  }

  /** The line the logger appends for one event, before its newline. */
  function EntryLine(time: string, agent: Option<string>, story: Option<string>, message: string): string {
    Prefix(time, agent, story) + message
  }

  /** The text the logger appends for one event. */
  function FormatEntry(time: string, agent: Option<string>, story: Option<string>, message: string): string {
    EntryLine(time, agent, story, message) + "\n"
  }

  /** One parsed journal entry: the pattern's four groups, an absent
      optional group being `None`. */
  datatype Entry = Entry(time: string, agent: Option<string>, story: Option<string>, message: string)

  /** An optional `\s*<open>[^<close>]*<close>` group at the front of `t`:
      its contents and what follows, or `None` and `t` unchanged.

      The regular expression could backtrack out of a matched group, but a
      pattern that skips the group must next see `(` or the dash after the
      blanks, never `open`; and `[^<close>]*` can only stop at the first
      `close`. So the group is taken exactly when it can be. */
  function Group(t: string, open: char, close: char): (r: (Option<string>, string))
    ensures r.0.None? ==> r.1 == t
    ensures r.0.Some? ==> close !in r.0.value && |r.1| < |t|
  {
    var u := LStrip(t);
    if |u| > 0 && u[0] == open && close in u[1..] then
      var v := u[1..];
      var j := Find(v, close);
      (Some(v[..j]), v[j + 1..])
    else (None, t)
  }

  /** What `Group` returns comes from within `t`, so it holds no line break
      that `t` lacks. */
  lemma GroupNoNewline(t: string, open: char, close: char)
    ensures OneLine(t) ==> OneLine(Group(t, open, close).1)
    ensures OneLine(t) && Group(t, open, close).0.Some? ==> OneLine(Group(t, open, close).0.value)
  {
    var u := LStrip(t);
    if |u| > 0 && u[0] == open && close in u[1..] {
      var j := Find(u[1..], close);
      assert u[1..][..j] == t[Indent(t, 0) + 1..][..j];
      assert u[1..][j + 1..] == t[Indent(t, 0) + 1 + j + 1..];
    }
  }

  /** `Group` takes the group exactly when `t` has the form the pattern
      asks for, and then splits `t` the way the pattern does. */
  lemma GroupExact(t: string, open: char, close: char)
    requires !IsSpace(open)
    ensures Group(t, open, close).0.Some? ==>
      GroupAt(t, open, close, t[..Indent(t, 0)], Group(t, open, close).0.value, Group(t, open, close).1)
    ensures Group(t, open, close).0.None? ==> forall a, x, b :: !GroupAt(t, open, close, a, x, b)
  {
    if Group(t, open, close).0.Some? {
      GroupFound(t, open, close);
    } else {
      forall a, x, b | GroupAt(t, open, close, a, x, b)
        ensures false
      {
        GroupTaken(t, open, close, a, x, b);
      }
    }
  }

  lemma GroupFound(t: string, open: char, close: char)
    requires Group(t, open, close).0.Some?
    ensures GroupAt(t, open, close, t[..Indent(t, 0)], Group(t, open, close).0.value, Group(t, open, close).1)
  {
    var i := Indent(t, 0);
    var v := t[i..][1..];
    assert v == t[i + 1..];
    GroupParts(t, i, open, close, Find(v, close));
  }

  /** Blanks up to `i`, `open` at `i` and the first `close` after it at
      `i + 1 + j` split `t` the way the group does. */
  lemma GroupParts(t: string, i: nat, open: char, close: char, j: int)
    requires i < |t| && t[i] == open && forall k :: 0 <= k < i ==> IsSpace(t[k])
    requires 0 <= j < |t[i + 1..]| && t[i + 1..][j] == close && close !in t[i + 1..][..j]
    ensures GroupAt(t, open, close, t[..i], t[i + 1..][..j], t[i + 1..][j + 1..])
  {
    var v := t[i + 1..];
    assert t == t[..i] + [open] + v;
    assert v == v[..j] + [close] + v[j + 1..];
    assert IsBlank(t[..i]) by {
      forall k | 0 <= k < i
        ensures IsSpace(t[..i][k])
      {
        assert t[..i][k] == t[k];
      }
    }
  }

  /** A group in the expected form is found where it stands. */
  lemma GroupTaken(t: string, open: char, close: char, a: string, x: string, b: string)
    requires !IsSpace(open) && GroupAt(t, open, close, a, x, b)
    ensures Group(t, open, close) == (Some(x), b)
  {
    IndentAt(t, 0, |a|);
    var u := t[|a|..];
    assert u == [open] + x + [close] + b;
    var v := u[1..];
    assert v == x + [close] + b;
    FindAt(v, close, |x|);
    assert v[..|x|] == x;
  }

  /** `t` is blanks `a`, then `open`, contents `x` free of `close`, `close`
      and the rest `b`. */
  ghost predicate GroupAt(t: string, open: char, close: char, a: string, x: string, b: string) {
    IsBlank(a) && close !in x && t == a + [open] + x + [close] + b
  }

  /** `_ENTRY_RE.match(s)` for a stripped line `s`:
      `- **HH:MM:SS**`, an optional `[agent]`, an optional `(story)`, the
      dash, and a non-empty message that runs to the end of the line. */
  function MatchEntry(s: string): (r: Option<Entry>)
    ensures r.Some? ==> StartsWith(s, "- **") && IsTime(r.value.time)
    ensures r.Some? && OneLine(s) ==> NoNewline(r.value)
    ensures r.Some? ==> |r.value.message| > 0 && '\n' !in r.value.message && !IsSpace(r.value.message[0])
  {
    if |s| < 14 || s[..4] != "- **" || !IsTime(s[4..12]) || s[12..14] != "**" then None
    else
      HeaderFields(s);
      MatchTags(s[4..12], s[14..])
  }

  /** The time stamp and the rest of a one-line entry are one line each. */
  lemma HeaderFields(s: string)
    requires |s| >= 14
    ensures OneLine(s) ==> OneLine(s[4..12]) && OneLine(s[14..])
  {
    OneLineSlice(s, 4, 12);
    OneLineSlice(s, 14, |s|);
    assert s[14..] == s[14..|s|];
  }

  /** The rest of the pattern, after `- **HH:MM:SS**`. */
  function MatchTags(time: string, t: string): (r: Option<Entry>)
    ensures r.Some? ==> r.value.time == time
    ensures r.Some? && OneLine(t) && OneLine(time) ==> NoNewline(r.value)
    ensures r.Some? ==> |r.value.message| > 0 && '\n' !in r.value.message && !IsSpace(r.value.message[0])
  {
    var (agent, r1) := Group(t, '[', ']');
    GroupNoNewline(t, '[', ']');
    var (story, r2) := Group(r1, '(', ')');
    GroupNoNewline(r1, '(', ')');
    var r3 := LStrip(r2);
    if |r3| == 0 || r3[0] != EmDash then None
    else
      var m := LStrip(r3[1..]);
      if |m| == 0 || '\n' in m then None
      else Some(Entry(time, agent, story, m))
  }

  /** What `_parse_entries` takes from one line of a journal. */
  function ParseLine(line: string): (r: Option<Entry>)
    ensures r.Some? && OneLine(line) ==> NoNewline(r.value)
  {
    var s := Strip(line);
    assert OneLine(line) ==> OneLine(s) by {
      assert s == line[Indent(line, 0)..][..TrimmedEnd(LStrip(line), |LStrip(line)|)];
    }
    MatchEntry(s)
  }

  /** No field of the entry spans lines. */
  predicate NoNewline(e: Entry) {
    OneLine(e.time) && OneLine(e.message)
    && (e.agent.Some? ==> OneLine(e.agent.value))
    && (e.story.Some? ==> OneLine(e.story.value))
  }

  // ---------------------------------------------------------------------------
  // Reading back what the logger wrote
  // ---------------------------------------------------------------------------

  /** The logger's agent tag, when written, is read back as the agent group. */
  lemma AgentRead(agent: Option<string>, rest: string)
    requires agent.Some? ==> ']' !in agent.value
    requires |rest| >= 2 && rest[0] == ' ' && (rest[1] == '(' || rest[1] == EmDash)
    ensures Group(AgentTag(agent) + rest, '[', ']') == (if Truthy(agent) then (agent, rest) else (None, rest))
  {
    if Truthy(agent) {
      assert AgentTag(agent) + rest == " " + ['['] + agent.value + [']'] + rest;
      GroupTaken(AgentTag(agent) + rest, '[', ']', " ", agent.value, rest);
    } else {
      assert AgentTag(agent) + rest == rest;
      GroupSkipped(rest, '[', ']');
    }
  }

  /** The logger's story tag, when written, is read back as the story group. */
  lemma StoryRead(story: Option<string>, rest: string)
    requires story.Some? ==> ')' !in story.value
    requires |rest| >= 2 && rest[0] == ' ' && rest[1] == EmDash
    ensures Group(StoryTag(story) + rest, '(', ')') == (if Truthy(story) then (story, rest) else (None, rest))
  {
    if Truthy(story) {
      assert StoryTag(story) + rest == " " + ['('] + story.value + [')'] + rest;
      GroupTaken(StoryTag(story) + rest, '(', ')', " ", story.value, rest);
    } else {
      assert StoryTag(story) + rest == rest;
      GroupSkipped(rest, '(', ')');
    }
  }

  /** A space and then anything but blanks or the opening character: the
      group is not there. */
  lemma GroupSkipped(t: string, open: char, close: char)
    requires |t| >= 2 && t[0] == ' ' && !IsSpace(t[1]) && t[1] != open
    ensures Group(t, open, close) == (None, t)
  {
    assert t == [' '] + t[1..];
    LStripSpace(' ', t[1..]);
    LStripNonSpace(t[1..]);
    assert LStrip(t)[0] == t[1];
  }

  /** Stripping a line that starts with a non-blank prefix and ends with a
      blank tail leaves the prefix and the message without its trailing
      whitespace. */
  lemma StripLine(p: string, m: string, tail: string)
    requires |p| > 0 && !IsSpace(p[0]) && !IsBlank(m) && IsBlank(tail)
    ensures Strip(p + m + tail) == p + RStrip(m)
  {
    LStripNonSpace(p + m + tail);
    RStripBlankTail(p + m, tail);
    RStripPrefix(p, m);
  }

  /** A message that is not blank keeps something after stripping, and
      stripping adds no character. */
  lemma StripKeeps(m: string)
    requires !IsBlank(m)
    ensures |Strip(m)| > 0 && !IsSpace(Strip(m)[0])
    ensures forall c :: c in Strip(m) ==> c in m
  {
    var i := Indent(m, 0);
    var u := m[i..];
    assert i < |m|;
    assert u[0] == m[i];
    assert TrimmedEnd(u, |u|) > 0;
  }

  /** After the tags, the dash and the blanks that follow it are skipped
      and the message group is the rest. */
  lemma DashRead(rm: string)
    ensures |LStrip(Dash + rm)| > 0 && LStrip(Dash + rm)[0] == EmDash && LStrip(LStrip(Dash + rm)[1..]) == LStrip(rm)
  {
    assert Dash + rm == [' '] + ([EmDash, ' '] + rm);
    LStripSpace(' ', [EmDash, ' '] + rm);
    LStripNonSpace([EmDash, ' '] + rm);
    assert ([EmDash, ' '] + rm)[1..] == [' '] + rm;
    LStripSpace(' ', rm);
  }

  /** The pattern applied to a logger line whose message has no trailing
      whitespace. */
  lemma MatchLogged(time: string, agent: Option<string>, story: Option<string>, rm: string)
    requires IsTime(time)
    requires agent.Some? ==> ']' !in agent.value
    requires story.Some? ==> ')' !in story.value
    requires '\n' !in LStrip(rm) && |LStrip(rm)| > 0
    ensures MatchEntry(Prefix(time, agent, story) + rm)
         == Some(Entry(time, if Truthy(agent) then agent else None, if Truthy(story) then story else None, LStrip(rm)))
  {
    PrefixSplit(time, agent, story, rm);
    MatchHeader(time, TagsOf(agent, story, rm));
    TagsLogged(time, agent, story, rm);
  }

  /** What follows the time stamp in a logger line. */
  function TagsOf(agent: Option<string>, story: Option<string>, rm: string): string {
    AgentTag(agent) + (StoryTag(story) + (Dash + rm))
  }

  lemma TagsLogged(time: string, agent: Option<string>, story: Option<string>, rm: string)
    requires agent.Some? ==> ']' !in agent.value
    requires story.Some? ==> ')' !in story.value
    requires '\n' !in LStrip(rm) && |LStrip(rm)| > 0
    ensures MatchTags(time, TagsOf(agent, story, rm))
         == Some(Entry(time, if Truthy(agent) then agent else None, if Truthy(story) then story else None, LStrip(rm)))
  {
    var rest := Dash + rm;
    StoryRead(story, rest);
    StoryTagShape(story, rest);
    AgentRead(agent, StoryTag(story) + rest);
    TagsRead(time, TagsOf(agent, story, rm), StoryTag(story) + rest, if Truthy(agent) then agent else None, if Truthy(story) then story else None, rm);
  }

  lemma StoryTagShape(story: Option<string>, rest: string)
    requires |rest| >= 2 && rest[0] == ' ' && rest[1] == EmDash
    ensures var u := StoryTag(story) + rest; |u| >= 2 && u[0] == ' ' && (u[1] == '(' || u[1] == EmDash)
  {
  }

  /** The tags of a line, once their groups are known, followed by the
      dash and the message. */
  lemma TagsRead(time: string, t: string, r1: string, agent: Option<string>, story: Option<string>, rm: string)
    requires Group(t, '[', ']') == (agent, r1)
    requires Group(r1, '(', ')') == (story, Dash + rm)
    requires '\n' !in LStrip(rm) && |LStrip(rm)| > 0
    ensures MatchTags(time, t) == Some(Entry(time, agent, story, LStrip(rm)))
  {
    DashRead(rm);
  }

  lemma PrefixSplit(time: string, agent: Option<string>, story: Option<string>, rm: string)
    ensures Prefix(time, agent, story) + rm == "- **" + time + "**" + TagsOf(agent, story, rm)
  {
  }

  /** A line that opens with a well-formed time stamp is read on from the tags. */
  lemma MatchHeader(time: string, t: string)
    requires IsTime(time)
    ensures MatchEntry("- **" + time + "**" + t) == MatchTags(time, t)
  {
    var s := "- **" + time + "**" + t;
    assert s[..4] == "- **" && s[4..12] == time && s[12..14] == "**" && s[14..] == t;
  }

  /** A logger line, followed by any blanks, parses to its fields. */
  lemma LoggedParse(time: string, agent: Option<string>, story: Option<string>, message: string, tail: string)
    requires IsTime(time)
    requires agent.Some? ==> ']' !in agent.value
    requires story.Some? ==> ')' !in story.value
    requires '\n' !in message && !IsBlank(message) && IsBlank(tail)
    ensures ParseLine(EntryLine(time, agent, story, message) + tail)
         == Some(Entry(time, if Truthy(agent) then agent else None, if Truthy(story) then story else None, Strip(message)))
  {
    var p := Prefix(time, agent, story);
    assert |p| > 0 && p[0] == '-';
    StripLine(p, message, tail);
    StripEitherOrder(message);
    StripKeeps(message);
    MatchLogged(time, agent, story, RStrip(message));
  }

  /** Parsing what the logger wrote gives back its fields: the time, the
      agent and story when they were written (a missing or empty one reads
      back as absent), and the message without surrounding whitespace. The
      pattern cannot represent an agent containing `]`, a story containing
      `)`, or a message spanning lines or made only of blanks. */
  lemma FormatParse(time: string, agent: Option<string>, story: Option<string>, message: string)
    requires IsTime(time)
    requires agent.Some? ==> ']' !in agent.value
    requires story.Some? ==> ')' !in story.value
    requires '\n' !in message && !IsBlank(message)
    ensures ParseLine(FormatEntry(time, agent, story, message))
         == Some(Entry(time, if Truthy(agent) then agent else None, if Truthy(story) then story else None, Strip(message)))
  {
    LoggedParse(time, agent, story, message, "\n");
  }

  // ---------------------------------------------------------------------------
  // Journal files
  // ---------------------------------------------------------------------------

  /** `os.path.join(a, b)`: an absolute `b` replaces `a`; otherwise a '/'
      is put between them unless `a` is empty or already ends with one. */
  function PathJoin(a: string, b: string): string {
    if |b| > 0 && b[0] == '/' then b
    else if |a| == 0 || a[|a| - 1] == '/' then a + b
    else a + "/" + b
  }

  /** The directory of the journals under a project root. */
  function SessionsDir(root: string): string {
    PathJoin(PathJoin(PathJoin(root, ".forge"), "memory"), "sessions")
  }

  /** The journal of the day `date`. */
  function SessionPath(root: string, date: string): string {
    PathJoin(SessionsDir(root), date + ".md")
  }

  /** The header written into a journal when it is created. */
  function Header(date: string): string {
    "# Session \U{2014} " + date + "\n\n"
  }

  /** The path `log` returns and the content of the journal afterwards. */
  datatype Logged = Logged(path: string, content: string)

  /** `log(root, message, agent=agent, story=story)` on day `date` at
      `time`, where `existing` is the journal's content if the file exists.
      A missing journal is first created with a header naming the day,
      taken back from the file name; the entry is then appended. */
  function Log(root: string, date: string, time: string, existing: Option<string>,
               message: string, agent: Option<string>, story: Option<string>): (r: Logged)
    ensures r.path == SessionPath(root, date)
    ensures existing.Some? ==> StartsWith(r.content, existing.value)
    ensures EndsWith(r.content, FormatEntry(time, agent, story, message))
  {
    var path := SessionPath(root, date);
    var before := if existing.Some? then existing.value else Header(Stem(Basename(path)));
    Logged(path, before + FormatEntry(time, agent, story, message))
  }

  /** The journal of a day is named after the day, in the sessions directory. */
  lemma SessionPathName(root: string, date: string)
    requires '/' !in date
    ensures Basename(SessionPath(root, date)) == date + ".md"
    ensures EndsWith(SessionPath(root, date), "sessions/" + date + ".md")
  {
    SessionPathBase(root, date);
    SessionPathEnd(root, date);
  }

  lemma SessionPathBase(root: string, date: string)
    requires '/' !in date
    ensures Basename(SessionPath(root, date)) == date + ".md"
  {
    FileBase(SessionsDir(root), date + ".md");
  }

  lemma SessionPathEnd(root: string, date: string)
    requires '/' !in date
    ensures EndsWith(SessionPath(root, date), "sessions/" + date + ".md")
  {
    var name := date + ".md";
    assert name[0] != '/' by {
      if |date| > 0 {
        assert name[0] == date[0];
      }
    }
    SessionsDirEnd(root);
    SessionsSuffix(date);
    FileEnd(SessionsDir(root), name, "sessions");
  }

  lemma SessionsSuffix(date: string)
    ensures "sessions/" + date + ".md" == "sessions" + "/" + (date + ".md")
  {
  }

  /** A file joined onto a directory keeps its own name as the base name. */
  lemma FileBase(dir: string, name: string)
    requires |name| > 0 && name[0] != '/' && '/' !in name
    ensures Basename(PathJoin(dir, name)) == name
  {
    if |dir| > 0 && dir[|dir| - 1] != '/' {
      var path := dir + "/" + name;
      assert path[|dir| + 1..] == name;
      RFindAt(path, '/', |dir|);
    } else if |dir| > 0 {
      var path := dir + name;
      assert path[|dir|..] == name;
      RFindAt(path, '/', |dir| - 1);
    } else {
      assert PathJoin(dir, name) == name;
    }
  }

  /** A file joined onto a directory that ends with `last` ends with
      `last`, '/' and the file's name. */
  lemma FileEnd(dir: string, name: string, last: string)
    requires |name| > 0 && name[0] != '/'
    requires |last| > 0 && last[|last| - 1] != '/' && EndsWith(dir, last)
    ensures EndsWith(PathJoin(dir, name), last + "/" + name)
  {
    var path := dir + "/" + name;
    assert dir[|dir| - 1] == last[|last| - 1];
    assert path[|path| - |last + "/" + name|..] == dir[|dir| - |last|..] + "/" + name;
  }

  lemma SessionsDirEnd(root: string)
    ensures EndsWith(SessionsDir(root), "sessions")
  {
    var a := PathJoin(PathJoin(root, ".forge"), "memory");
    assert SessionsDir(root) == a + "sessions" || SessionsDir(root) == a + "/" + "sessions";
  }

  /** The header names the day that the file name carries. */
  lemma DateStem(date: string)
    requires IsDate(date)
    ensures Stem(date + ".md") == date
  {
    var p := date + ".md";
    RFindAt(p, '.', 10);
    assert p[0] != '.';
    assert p[..10] == date;
  }

  /** A new journal starts with the header for its day. */
  lemma LogCreates(root: string, date: string, time: string, message: string, agent: Option<string>, story: Option<string>)
    requires IsDate(date)
    ensures Log(root, date, time, None, message, agent, story).content == Header(date) + FormatEntry(time, agent, story, message)
  {
    SessionPathName(root, date);
    DateStem(date);
  }

  /** The journal after logging: what it held, or the header of a new one,
      then the entry's line. */
  lemma LogContent(root: string, date: string, time: string, existing: Option<string>,
                   message: string, agent: Option<string>, story: Option<string>)
    requires IsDate(date)
    ensures Log(root, date, time, existing, message, agent, story).content
         == (if existing.Some? then existing.value else Header(date)) + EntryLine(time, agent, story, message) + "\n"
  {
    if existing.None? {
      LogCreates(root, date, time, message, agent, story);
    }
  }

  /** One entry as `_parse_entries` reports it, with the day of its journal. */
  datatype LogEntry = LogEntry(date: string, time: string, agent: Option<string>, story: Option<string>, message: string)

  function Dated(date: string, e: Entry): LogEntry {
    LogEntry(date, e.time, e.agent, e.story, e.message)
  }

  /** The entry of one line, if it is one. */
  function LineEntries(date: string, line: string): (r: seq<LogEntry>)
    ensures |r| <= 1
    ensures OneLine(line) ==> forall k :: 0 <= k < |r| ==> Plain(r[k])
  {
    match ParseLine(line)
    case None => []
    case Some(e) => [Dated(date, e)]
  }

  /** The entries of a journal's lines, in line order. */
  function ParseEntries(date: string, lines: seq<string>): seq<LogEntry> {
    Gather(lines, LineParser(date))
  }

  /** `LineEntries` for the journal of `date`, as a function of the line. */
  function LineParser(date: string): string -> seq<LogEntry> {
    line => LineEntries(date, line)
  }

  /** What `f` finds in each line, in line order. */
  function Gather<T>(lines: seq<string>, f: string -> seq<T>): seq<T> {
    if |lines| == 0 then []
    else Gather(lines[..|lines| - 1], f) + f(lines[|lines| - 1])
  }

  lemma {:induction false} GatherConcat<T>(a: seq<string>, b: seq<string>, f: string -> seq<T>)
    ensures Gather(a + b, f) == Gather(a, f) + Gather(b, f)
    decreases |b|
  {
    if |b| > 0 {
      var ab := a + b;
      assert ab[..|ab| - 1] == a + b[..|b| - 1];
      assert ab[|ab| - 1] == b[|b| - 1];
      GatherConcat(a, b[..|b| - 1], f);
    } else {
      assert a + b == a;
    }
  }

  lemma GatherOne<T>(line: string, f: string -> seq<T>)
    ensures Gather([line], f) == f(line)
  {
    assert [line][..0] == [];
  }

  /** No field of the entry, apart from its day, spans lines. */
  predicate Plain(e: LogEntry) {
    NoNewline(Entry(e.time, e.agent, e.story, e.message))
  }

  /** `_parse_entries` on a journal's content, which the journal's text-mode
      read has passed through universal newlines. */
  function JournalEntries(date: string, content: string): seq<LogEntry> {
    ParseEntries(date, Split(Newlines(content), '\n'))
  }

  /** Every entry of a journal's lines is dated with the journal's day, and
      none spans lines when no line does. */
  lemma {:induction false} ParseEntriesPlain(date: string, lines: seq<string>)
    ensures forall k :: 0 <= k < |ParseEntries(date, lines)| ==> ParseEntries(date, lines)[k].date == date
    ensures (forall i :: 0 <= i < |lines| ==> OneLine(lines[i])) ==>
              forall k :: 0 <= k < |ParseEntries(date, lines)| ==> Plain(ParseEntries(date, lines)[k])
    decreases |lines|
  {
    if |lines| > 0 {
      ParseEntriesPlain(date, lines[..|lines| - 1]);
      var r := LineEntries(date, lines[|lines| - 1]);
      assert ParseEntries(date, lines) == ParseEntries(date, lines[..|lines| - 1]) + r;
    }
  }

  /** A line that does not open with '-' is not an entry. */
  lemma NotEntry(line: string)
    requires |line| > 0 && !IsSpace(line[0]) && line[0] != '-'
    ensures ParseLine(line).None?
  {
    StripFirst(line);
    NoDashNoMatch(Strip(line));
  }

  /** Only a line that opens with '-' can match. */
  lemma NoDashNoMatch(s: string)
    requires |s| > 0 && s[0] != '-'
    ensures MatchEntry(s).None?
  {
    if |s| >= 14 {
      assert s[..4][0] == s[0];
    }
  }

  /** Stripping keeps a first character that is not whitespace. */
  lemma StripFirst(line: string)
    requires |line| > 0 && !IsSpace(line[0])
    ensures |Strip(line)| > 0 && Strip(line)[0] == line[0]
  {
    LStripNonSpace(line);
    assert TrimmedEnd(line, |line|) > 0;
  }

  /** An empty line holds no entry. */
  lemma EmptyLine(date: string)
    ensures LineParser(date)("") == [] && Gather([""], LineParser(date)) == []
  {
    assert Strip("") == "";
    GatherOne("", LineParser(date));
  }

  /** The first line of a journal's header. */
  function Title(date: string): string {
    "# Session \U{2014} " + date
  }

  /** A journal's header holds no entry. */
  lemma HeaderNoEntries(date: string)
    requires IsDate(date)
    ensures JournalEntries(date, Header(date)) == []
  {
    var f := LineParser(date);
    HeaderPlain(date);
    NotEntry(Title(date));
    EmptyLine(date);
    assert f(Title(date)) == [];
    HeaderLines(date, f);
  }

  lemma HeaderLines<T>(date: string, f: string -> seq<T>)
    requires IsDate(date) && f("") == [] && f(Title(date)) == []
    ensures Gather(Split(Header(date), '\n'), f) == []
  {
    var h := Title(date);
    assert '\n' !in date by {
      forall i | 0 <= i < |date|
        ensures date[i] != '\n'
      {
      }
    }
    assert Header(date) == h + ['\n'] + ("" + ['\n'] + "");
    SplitConcat(h, '\n', "" + ['\n'] + "");
    SplitConcat("", '\n', "");
    SplitNoSep(h, '\n');
    assert Split(Header(date), '\n') == [h] + [""] + [""];
    GatherOne(h, f);
    GatherOne("", f);
    GatherConcat([h], [""], f);
    GatherConcat([h] + [""], [""], f);
  }

  /** The lines of a journal that ends a line, once a line is appended. */
  lemma SplitAppended(prior: string, body: string)
    requires prior == "" || EndsWith(prior, "\n")
    requires '\n' !in body
    ensures var ls := Split(prior, '\n');
      ls[|ls| - 1] == "" && Split(prior + body + "\n", '\n') == ls[..|ls| - 1] + [body] + [""]
  {
    BodySplit(body);
    if prior == "" {
      assert prior + body + "\n" == body + "\n";
    } else {
      var o := prior[..|prior| - 1];
      assert prior == o + "\n";
      PriorSplit(o, body);
      var ls := Split(prior, '\n');
      assert ls == Split(o, '\n') + [""];
      assert ls[..|ls| - 1] == Split(o, '\n');
    }
  }

  /** A line and its end split into the line and an empty piece. */
  lemma BodySplit(body: string)
    requires '\n' !in body
    ensures Split(body + "\n", '\n') == [body, ""]
  {
    SplitNoSep(body, '\n');
    SplitConcat(body, '\n', "");
    assert body + "\n" == body + ['\n'] + "";
  }

  /** Text that ends a line, split before and after a line is appended. */
  lemma PriorSplit(o: string, body: string)
    requires Split(body + "\n", '\n') == [body, ""]
    ensures Split(o + "\n", '\n') == Split(o, '\n') + [""]
    ensures Split(o + "\n" + body + "\n", '\n') == Split(o, '\n') + [body] + [""]
  {
    assert o + "\n" == o + ['\n'] + "";
    SplitConcat(o, '\n', "");
    assert o + "\n" + body + "\n" == o + ['\n'] + (body + "\n");
    SplitConcat(o, '\n', body + "\n");
  }

  /** Appending a line to a journal that ends a line adds what is found
      in that line. */
  lemma AppendLine<T>(prior: string, body: string, f: string -> seq<T>)
    requires prior == "" || EndsWith(prior, "\n")
    requires '\n' !in body && f("") == []
    ensures Gather(Split(prior + body + "\n", '\n'), f) == Gather(Split(prior, '\n'), f) + f(body)
  {
    var ls := Split(prior, '\n');
    SplitAppended(prior, body);
    var front := ls[..|ls| - 1];
    assert ls == front + [""];
    GatherOne(body, f);
    GatherOne("", f);
    GatherConcat(front + [body], [""], f);
    GatherConcat(front, [body], f);
    GatherConcat(front, [""], f);
  }

  /** The logger's line read back in a journal of `date`. */
  lemma LoggedLine(date: string, time: string, agent: Option<string>, story: Option<string>, message: string)
    requires IsTime(time)
    requires agent.Some? ==> ']' !in agent.value
    requires story.Some? ==> ')' !in story.value
    requires '\n' !in message && !IsBlank(message)
    ensures LineParser(date)(EntryLine(time, agent, story, message))
         == [LogEntry(date, time, if Truthy(agent) then agent else None, if Truthy(story) then story else None, Strip(message))]
  {
    LoggedParse(time, agent, story, message, "");
    assert EntryLine(time, agent, story, message) + "" == EntryLine(time, agent, story, message);
  }

  /** Logging appends exactly one entry to what the journal already held:
      the one the logger wrote, read back with its day. A new journal holds
      only its header before. */
  lemma LogAppendsEntry(root: string, date: string, time: string, existing: Option<string>,
                        message: string, agent: Option<string>, story: Option<string>)
    requires IsDate(date) && IsTime(time)
    requires agent.Some? ==> ']' !in agent.value && OneLine(agent.value)
    requires story.Some? ==> ')' !in story.value && OneLine(story.value)
    requires OneLine(message) && !IsBlank(message)
    requires existing.Some? ==> existing.value == "" || EndsWith(existing.value, "\n")
    ensures JournalEntries(date, Log(root, date, time, existing, message, agent, story).content)
         == (if existing.Some? then JournalEntries(date, existing.value) else [])
            + [LogEntry(date, time, if Truthy(agent) then agent else None, if Truthy(story) then story else None, Strip(message))]
  {
    LineFacts(date, time, agent, story, message);
    LogContent(root, date, time, existing, message, agent, story);
    JournalAppend(date, existing, EntryLine(time, agent, story, message),
                  [LogEntry(date, time, if Truthy(agent) then agent else None, if Truthy(story) then story else None, Strip(message))]);
  }

  /** A journal, or a new journal's header, with one line appended reads
      back as its entries and those of the line. */
  lemma JournalAppend(date: string, before: Option<string>, body: string, e: seq<LogEntry>)
    requires IsDate(date) && OneLine(body)
    requires before.Some? ==> before.value == "" || EndsWith(before.value, "\n")
    requires LineParser(date)("") == [] && LineParser(date)(Title(date)) == [] && LineParser(date)(body) == e
    ensures JournalEntries(date, (if before.Some? then before.value else Header(date)) + body + "\n")
         == (if before.Some? then JournalEntries(date, before.value) else []) + e
  {
    if before.Some? {
      JournalAppendExisting(date, before.value, body, e);
    } else {
      JournalAppendNew(date, body, e);
    }
  }

  /** `JournalAppend` for a journal that already exists. */
  lemma JournalAppendExisting(date: string, before: string, body: string, e: seq<LogEntry>)
    requires IsDate(date) && OneLine(body)
    requires before == "" || EndsWith(before, "\n")
    requires LineParser(date)("") == [] && LineParser(date)(Title(date)) == [] && LineParser(date)(body) == e
    ensures JournalEntries(date, before + body + "\n") == JournalEntries(date, before) + e
  {
    ReadAppended(before, body);
    LogAppends(date, Some(Newlines(before)), body, LineParser(date), e);
  }

  /** `JournalAppend` for a journal the line creates, header first. */
  lemma JournalAppendNew(date: string, body: string, e: seq<LogEntry>)
    requires IsDate(date) && OneLine(body)
    requires LineParser(date)("") == [] && LineParser(date)(Title(date)) == [] && LineParser(date)(body) == e
    ensures JournalEntries(date, Header(date) + body + "\n") == e
  {
    HeaderPlain(date);
    ReadAppended(Header(date), body);
    LogAppends(date, None, body, LineParser(date), e);
  }

  /** Text that ends a line, followed by a one-line body and its line
      break, reads back as the text read back, the body and the break. */
  lemma ReadAppended(x: string, body: string)
    requires x == "" || EndsWith(x, "\n")
    requires OneLine(body)
    ensures Newlines(x + body + "\n") == Newlines(x) + body + "\n"
    ensures Newlines(x) == "" || EndsWith(Newlines(x), "\n")
  {
    var b := body + "\n";
    assert x + body + "\n" == x + b;
    assert '\r' !in b;
    ReadPlainTail(x, b);
    if x != "" {
      NewlinesEndsLine(x);
    }
  }

  /** Text that ends a line, followed by text without carriage returns,
      reads back as the first part read back and the second as it is. */
  lemma ReadPlainTail(x: string, b: string)
    requires x == "" || EndsWith(x, "\n")
    requires '\r' !in b
    ensures Newlines(x + b) == Newlines(x) + b
  {
    NewlinesConcat(x, b);
    NewlinesPlain(b);
  }

  /** A journal's header holds no carriage return, reads back as written
      and ends its last line. */
  lemma HeaderPlain(date: string)
    requires IsDate(date)
    ensures Newlines(Header(date)) == Header(date)
    ensures EndsWith(Header(date), "\n")
  {
    HeaderEnds(date);
    assert '\r' !in date by {
      forall i | 0 <= i < |date|
        ensures date[i] != '\r'
      {
      }
    }
    NewlinesPlain(Header(date));
  }

  /** A journal's header ends with a line break. */
  lemma HeaderEnds(date: string)
    ensures EndsWith(Header(date), "\n")
  {
    var h := Header(date);
    assert h[|h| - 1] == '\n';
    assert h[|h| - 1..] == "\n";
  }

  /** What the line parser of a journal finds in the lines logging writes:
      nothing in the header's lines, the entry in the logger's line. */
  lemma LineFacts(date: string, time: string, agent: Option<string>, story: Option<string>, message: string)
    requires IsDate(date) && IsTime(time)
    requires agent.Some? ==> ']' !in agent.value && OneLine(agent.value)
    requires story.Some? ==> ')' !in story.value && OneLine(story.value)
    requires OneLine(message) && !IsBlank(message)
    ensures LineParser(date)("") == [] && LineParser(date)(Title(date)) == []
    ensures LineParser(date)(EntryLine(time, agent, story, message))
         == [LogEntry(date, time, if Truthy(agent) then agent else None, if Truthy(story) then story else None, Strip(message))]
    ensures OneLine(EntryLine(time, agent, story, message))
  {
    LoggedLine(date, time, agent, story, message);
    HeaderLineFacts(date);
    BodyOneLine(time, agent, story, message);
  }

  /** The line parser of a journal finds nothing in the header's lines. */
  lemma HeaderLineFacts(date: string)
    ensures LineParser(date)("") == [] && LineParser(date)(Title(date)) == []
  {
    EmptyLine(date);
    NotEntry(Title(date));
  }

  /** What a line parser `f` finds in a journal after logging, given what
      it finds in the logger's line and in the header. */
  lemma LogAppends<T>(date: string, before: Option<string>, body: string, f: string -> seq<T>, e: seq<T>)
    requires IsDate(date) && '\n' !in body
    requires before.Some? ==> before.value == "" || EndsWith(before.value, "\n")
    requires f("") == [] && f(Title(date)) == [] && f(body) == e
    ensures Gather(Split((if before.Some? then before.value else Header(date)) + body + "\n", '\n'), f)
         == (if before.Some? then Gather(Split(before.value, '\n'), f) else []) + e
  {
    if before.None? {
      HeaderLines(date, f);
      HeaderEnds(date);
    }
    AppendLine(if before.Some? then before.value else Header(date), body, f);
  }

  lemma BodyOneLine(time: string, agent: Option<string>, story: Option<string>, message: string)
    requires IsTime(time) && OneLine(message)
    requires agent.Some? ==> OneLine(agent.value)
    requires story.Some? ==> OneLine(story.value)
    ensures OneLine(EntryLine(time, agent, story, message))
  {
    assert OneLine(time) by {
      forall i | 0 <= i < |time|
        ensures time[i] != '\n' && time[i] != '\r'
      {
      }
    }
    var a := AgentTag(agent);
    var b := StoryTag(story);
    assert OneLine(a) && OneLine(b);
    var p := "- **" + time + "**" + a + b + Dash;
    assert OneLine(p);
    assert EntryLine(time, agent, story, message) == p + message;
  }
}

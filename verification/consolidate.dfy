/** Consolidation of the session journals into `MEMORY.md`: finding the date
    of the last consolidation, choosing the journals written since, grouping
    their entries by story and appending a dated summary section.

    `MEMORY.md` is modelled by its content (None when the file does not
    exist), the sessions directory by whether it exists and the names it
    lists, the journals by a function from name to content, and the clock
    by today's date. */
module Consolidation {
  import opened Base
  import Order
  import opened SessionLog

  // ---------------------------------------------------------------------------
  // The last consolidation
  // ---------------------------------------------------------------------------

  /** The start of the heading of a consolidation section. */
  const MarkerPrefix: string := "### Consolidation \U{2014} "

  /** `_CONSOLIDATION_MARKER_RE.match(s)`: the date of a heading of a
      consolidation section. Only the start of `s` has to match. */
  function MarkerDate(s: string): (r: Option<string>)
    ensures r.Some? ==> IsDate(r.value) && StartsWith(s, MarkerPrefix + r.value)
  {
    if |s| >= 30 && s[..20] == MarkerPrefix && IsDate(s[20..30]) then
      assert s[..30] == MarkerPrefix + s[20..30];
      Some(s[20..30])
    else None
  }

  /** The date of a marker on one line of `MEMORY.md`, if it holds one. */
  function LineMarker(line: string): Option<string> {
    MarkerDate(Strip(line))
  }

  /** The markers of the lines, line by line. */
  function Markers(lines: seq<string>): (r: seq<Option<string>>)
    ensures |r| == |lines| && forall i :: 0 <= i < |lines| ==> r[i] == LineMarker(lines[i])
  {
    seq(|lines|, i requires 0 <= i < |lines| => LineMarker(lines[i]))
  }

  /** The date of the last marker among the lines, in file order. */
  function LastMarker(lines: seq<string>): Option<string> {
    LastSome(Markers(lines))
  }

  /** The last value present in `xs`. */
  function LastSome<T>(xs: seq<Option<T>>): (r: Option<T>)
    ensures r.None? <==> forall i :: 0 <= i < |xs| ==> xs[i].None?
    ensures r.Some? ==> exists i :: LastAt(xs, i) && xs[i] == r
  {
    if |xs| == 0 then None
    else if xs[|xs| - 1].Some? then
      assert LastAt(xs, |xs| - 1);
      xs[|xs| - 1]
    else
      var front := xs[..|xs| - 1];
      var r := LastSome(front);
      assert r.Some? ==> exists i :: LastAt(xs, i) && xs[i] == r by {
        if r.Some? {
          var i :| LastAt(front, i) && front[i] == r;
          assert LastAt(xs, i);
        }
      }
      r
  }

  /** Position `i` holds a value and no later position does. */
  ghost predicate LastAt<T>(xs: seq<Option<T>>, i: int) {
    0 <= i < |xs| && xs[i].Some? && forall j :: i < j < |xs| ==> xs[j].None?
  }

  /** `_find_last_consolidation_date`: nothing for a missing `MEMORY.md`,
      otherwise the date of the last marker among its lines, as a text-mode
      read passes them through universal newlines. */
  function LastConsolidationDate(memory: Option<string>): Option<string> {
    if memory.None? then None else LastMarker(Split(Newlines(memory.value), '\n'))
  }

  /** The marker that follows every other line decides, whatever the dates
      of the markers before it. */
  lemma LastMarkerAfter(a: seq<string>, b: seq<string>, d: string)
    requires |b| > 0 && LineMarker(b[0]) == Some(d)
    requires forall j :: 0 < j < |b| ==> LineMarker(b[j]).None?
    ensures LastMarker(a + b) == Some(d)
  {
    var ms := Markers(a + b);
    assert ms[|a|] == LineMarker(b[0]);
    forall j | |a| < j < |ms|
      ensures ms[j].None?
    {
      assert ms[j] == LineMarker(b[j - |a|]);
    }
    LastSomeAt(ms, |a|);
  }

  /** A value with none after it is the last one. */
  lemma LastSomeAt<T>(xs: seq<Option<T>>, p: int)
    requires 0 <= p < |xs| && xs[p].Some?
    requires forall j :: p < j < |xs| ==> xs[j].None?
    ensures LastSome(xs) == xs[p]
  {
    assert LastAt(xs, p);
    var i :| LastAt(xs, i) && xs[i] == LastSome(xs);
  }

  /** The heading of a consolidation section is read back as its date. */
  lemma MarkerRead(d: string)
    requires IsDate(d)
    ensures LineMarker(MarkerPrefix + d) == Some(d)
  {
    var s := MarkerPrefix + d;
    assert |s| == 30 && s[0] == '#' && s[29] == d[9];
    StripKeepsEnds(s);
    assert s[..20] == MarkerPrefix && s[20..30] == d;
  }

  /** The last marker wins even when an earlier one names a later day: the
      date is that of the last section appended, not the latest date. */
  lemma LastNotLatest(d1: string, d2: string)
    requires IsDate(d1) && IsDate(d2)
    ensures LastMarker([MarkerPrefix + d1, MarkerPrefix + d2]) == Some(d2)
  {
    MarkerRead(d2);
    assert [MarkerPrefix + d1, MarkerPrefix + d2] == [MarkerPrefix + d1] + [MarkerPrefix + d2];
    LastMarkerAfter([MarkerPrefix + d1], [MarkerPrefix + d2], d2);
  }

  /** A line that opens with something other than whitespace or '#' holds
      no marker; neither does an empty line. */
  lemma NoMarker(line: string)
    requires |line| == 0 || (!IsSpace(line[0]) && line[0] != '#')
    ensures LineMarker(line).None?
  {
    if |line| > 0 {
      StripFirst(line);
      assert MarkerPrefix[0] == '#';
    } else {
      assert Strip(line) == "";
    }
  }

  // ---------------------------------------------------------------------------
  // Choosing the journals to consolidate
  // ---------------------------------------------------------------------------

  /** A directory entry is consolidated when it ends in `.md` and, after a
      consolidation, its name without the extension is not at or before the
      date of that consolidation. */
  predicate Selected(name: string, after: Option<string>) {
    EndsWith(name, ".md") && !(Truthy(after) && Order.StrLe(Stem(name), after.value))
  }

  /** After a consolidation, exactly the journals of later days are chosen. */
  lemma SelectedAfter(name: string, after: Option<string>)
    requires Truthy(after)
    ensures Selected(name, after) <==> EndsWith(name, ".md") && Order.StrLt(after.value, Stem(name))
  {
    if Order.StrLt(after.value, Stem(name)) {
      Order.StrLtAsymmetric(after.value, Stem(name));
    }
    if !Order.StrLe(Stem(name), after.value) {
      Order.StrNotLe(Stem(name), after.value);
    }
  }

  /** The chosen names, in the order given. */
  function Keep(names: seq<string>, after: Option<string>): (r: seq<string>)
    ensures forall n :: n in r <==> n in names && Selected(n, after)
    ensures Order.SortedStrings(names) ==> Order.SortedStrings(r)
  {
    if |names| == 0 then []
    else
      var rest := Keep(names[1..], after);
      assert forall n :: n in names <==> n == names[0] || n in names[1..] by {
        assert names == [names[0]] + names[1..];
      }
      if Selected(names[0], after) then
        assert Order.SortedStrings(names) ==> forall k :: 0 <= k < |rest| ==> Order.StrLe(names[0], rest[k]) by {
          if Order.SortedStrings(names) {
            forall k | 0 <= k < |rest|
              ensures Order.StrLe(names[0], rest[k])
            {
              assert rest[k] in rest;
              if rest[k] != names[0] {
                assert rest[k] in names[1..];
                var j :| 0 <= j < |names[1..]| && names[1..][j] == rest[k];
                assert names[j + 1] == rest[k];
              }
            }
          }
        }
        [names[0]] + rest
      else rest
  }

  /** `_list_session_files`: the chosen entries of the sessions directory in
      sorted order, or none when there is no such directory. */
  function SessionFiles(isDir: bool, names: seq<string>, after: Option<string>): (r: seq<string>)
    ensures Order.SortedStrings(r)
    ensures forall n :: n in r <==> isDir && n in names && Selected(n, after)
  {
    if !isDir then []
    else
      Order.SortStringsHas(names);
      Keep(Order.SortStrings(names), after)
  }

  // ---------------------------------------------------------------------------
  // Collecting the entries
  // ---------------------------------------------------------------------------

  /** `_parse_entries` on a chosen journal, read through `read` and dated by
      its name without the extension. */
  function FileParser(read: string -> string): string -> seq<LogEntry> {
    name => JournalEntries(Stem(name), read(name))
  }

  /** The entries of the chosen journals, journal after journal. */
  function AllEntries(files: seq<string>, read: string -> string): seq<LogEntry> {
    Gather(files, FileParser(read))
  }

  /** No entry spans lines, its day included. */
  predicate AllPlain(es: seq<LogEntry>) {
    forall k :: 0 <= k < |es| ==> Plain(es[k]) && OneLine(es[k].date)
  }

  lemma AllPlainConcat(x: seq<LogEntry>, y: seq<LogEntry>)
    requires AllPlain(x) && AllPlain(y)
    ensures AllPlain(x + y)
  {
    forall k | 0 <= k < |x + y|
      ensures Plain((x + y)[k]) && OneLine((x + y)[k].date)
    {
      if k >= |x| {
        assert (x + y)[k] == y[k - |x|];
      }
    }
  }

  /** No entry collected from journals with single-line names spans lines,
      its day included. */
  lemma {:induction false} AllEntriesPlain(files: seq<string>, read: string -> string)
    requires forall i :: 0 <= i < |files| ==> OneLine(files[i])
    ensures AllPlain(AllEntries(files, read))
    decreases |files|
  {
    if |files| > 0 {
      var front := files[..|files| - 1];
      var name := files[|files| - 1];
      AllEntriesPlain(front, read);
      JournalPlain(name, read(name));
      assert AllEntries(files, read) == AllEntries(front, read) + FileParser(read)(name);
      AllPlainConcat(AllEntries(front, read), FileParser(read)(name));
    }
  }

  /** No entry of a journal with a single-line name spans lines, its day
      included. */
  lemma JournalPlain(name: string, content: string)
    requires OneLine(name)
    ensures AllPlain(JournalEntries(Stem(name), content))
  {
    var text := Newlines(content);
    SplitNoChar(text, '\n');
    SplitLacks(text, '\n', '\r');
    ParseEntriesPlain(Stem(name), Split(text, '\n'));
    StemOneLine(name);
  }

  lemma StemOneLine(name: string)
    requires OneLine(name)
    ensures OneLine(Stem(name))
  {
    assert Stem(name) == name[..|Stem(name)|];
    OneLineSlice(name, 0, |Stem(name)|);
  }

  // ---------------------------------------------------------------------------
  // Grouping by story
  // ---------------------------------------------------------------------------

  /** The keys of `by_story`: the entries' stories, in the order in which
      `setdefault` first meets them. */
  function Keys(entries: seq<LogEntry>): (r: seq<Option<string>>)
    ensures forall k :: k in r <==> exists i :: 0 <= i < |entries| && entries[i].story == k
    ensures Order.NoDup(r)
  {
    if |entries| == 0 then []
    else
      var front := entries[..|entries| - 1];
      var r := Keys(front);
      var k := entries[|entries| - 1].story;
      assert forall i :: 0 <= i < |front| ==> front[i] == entries[i];
      if k in r then r else r + [k]
  }

  /** The stories named among the keys. */
  function Named(keys: seq<Option<string>>): (r: seq<string>)
    ensures forall s :: s in r <==> Some(s) in keys
    ensures Order.NoDup(keys) ==> Order.NoDup(r)
  {
    if |keys| == 0 then []
    else
      var rest := Named(keys[1..]);
      assert forall k :: k in keys <==> k == keys[0] || k in keys[1..] by {
        assert keys == [keys[0]] + keys[1..];
      }
      assert Order.NoDup(keys) ==> Order.NoDup(keys[1..]) && keys[0] !in keys[1..] by {
        if Order.NoDup(keys) {
          forall j | 0 <= j < |keys[1..]|
            ensures keys[1..][j] != keys[0]
          {
            assert keys[1..][j] == keys[j + 1];
          }
        }
      }
      if keys[0].Some? then [keys[0].value] + rest else rest
  }

  function Wrap(s: seq<string>): (r: seq<Option<string>>)
    ensures |r| == |s| && forall i :: 0 <= i < |s| ==> r[i] == Some(s[i])
  {
    seq(|s|, i requires 0 <= i < |s| => Some(s[i]))
  }

  /** `story_keys`: every story once, the named ones in ascending order,
      then `None` when some entry has no story. */
  function StoryKeys(entries: seq<LogEntry>): (r: seq<Option<string>>)
    ensures forall k :: k in r <==> exists i :: 0 <= i < |entries| && entries[i].story == k
    ensures Order.NoDup(r)
    ensures forall i, j :: 0 <= i < j < |r| && r[j].Some? ==> r[i].Some? && Order.StrLt(r[i].value, r[j].value)
  {
    var keys := Keys(entries);
    var named := Named(keys);
    var sorted := Order.SortStrings(named);
    Order.SortStringsHas(named);
    Order.SortedStrict(sorted, named);
    KeysHas(keys, sorted);
    KeysOrdered(keys, sorted);
    Wrap(sorted) + NoneKey(keys)
  }

  /** `[None]` when some entry has no story. */
  function NoneKey(keys: seq<Option<string>>): seq<Option<string>> {
    if None in keys then [None] else []
  }

  /** The sorted names and the general key are exactly the keys. */
  lemma KeysHas(keys: seq<Option<string>>, sorted: seq<string>)
    requires forall x :: x in sorted <==> Some(x) in keys
    ensures forall k :: k in Wrap(sorted) + NoneKey(keys) <==> k in keys
  {
    var w := Wrap(sorted);
    var r := w + NoneKey(keys);
    forall k | k in r
      ensures k in keys
    {
      if k in w {
        var i :| 0 <= i < |w| && w[i] == k;
        assert k.value == sorted[i];
      }
    }
    forall k | k in keys
      ensures k in r
    {
      if k.Some? {
        var i :| 0 <= i < |sorted| && sorted[i] == k.value;
        assert w[i] == k;
      }
    }
  }

  /** Strictly ascending names, then at most the general key: no key
      twice, and the general key last. */
  lemma KeysOrdered(keys: seq<Option<string>>, sorted: seq<string>)
    requires forall i, j :: 0 <= i < j < |sorted| ==> Order.StrLt(sorted[i], sorted[j])
    ensures var r := Wrap(sorted) + NoneKey(keys);
      Order.NoDup(r)
      && forall i, j :: 0 <= i < j < |r| && r[j].Some? ==> r[i].Some? && Order.StrLt(r[i].value, r[j].value)
  {
    var r := Wrap(sorted) + NoneKey(keys);
    forall i, j | 0 <= i < j < |r|
      ensures r[i] != r[j]
    {
      if j < |sorted| {
        Order.StrLtAsymmetric(sorted[i], sorted[j]);
      }
    }
  }

  /** `by_story[key]`: the entries with that story, in collection order. */
  function StoryGroup(entries: seq<LogEntry>, key: Option<string>): (r: seq<LogEntry>)
    ensures forall e :: e in r <==> e in entries && e.story == key
  {
    if |entries| == 0 then []
    else
      var front := entries[..|entries| - 1];
      var e := entries[|entries| - 1];
      assert entries == front + [e];
      if e.story == key then StoryGroup(front, key) + [e] else StoryGroup(front, key)
  }

  /** The groups of `keys`, one after the other. */
  function Grouped(entries: seq<LogEntry>, keys: seq<Option<string>>): seq<LogEntry> {
    if |keys| == 0 then [] else StoryGroup(entries, keys[0]) + Grouped(entries, keys[1..])
  }

  lemma {:induction false} GroupedEmpty(keys: seq<Option<string>>)
    ensures Grouped([], keys) == []
    decreases |keys|
  {
    if |keys| > 0 {
      GroupedEmpty(keys[1..]);
    }
  }

  /** An entry collected last joins the group of its story and no other. */
  lemma {:induction false} GroupedSnoc(entries: seq<LogEntry>, x: LogEntry, keys: seq<Option<string>>)
    requires Order.NoDup(keys)
    ensures multiset(Grouped(entries + [x], keys))
            == multiset(Grouped(entries, keys)) + (if x.story in keys then multiset{x} else multiset{})
    decreases |keys|
  {
    if |keys| > 0 {
      NoDupTail(keys);
      GroupedSnoc(entries, x, keys[1..]);
      StoryGroupSnoc(entries, x, keys[0]);
    }
  }

  /** Without repeats, the first key is not among the others, which have
      no repeats either. */
  lemma NoDupTail<T>(keys: seq<T>)
    requires |keys| > 0 && Order.NoDup(keys)
    ensures Order.NoDup(keys[1..]) && keys[0] !in keys[1..]
    ensures forall k :: k in keys <==> k == keys[0] || k in keys[1..]
  {
    var rest := keys[1..];
    forall i, j | 0 <= i < j < |rest|
      ensures rest[i] != rest[j]
    {
      assert rest[i] == keys[i + 1] && rest[j] == keys[j + 1];
    }
    forall j | 0 <= j < |rest|
      ensures rest[j] != keys[0]
    {
      assert rest[j] == keys[j + 1];
    }
    assert keys == [keys[0]] + rest;
  }

  /** An entry collected last ends the group of its story. */
  lemma StoryGroupSnoc(entries: seq<LogEntry>, x: LogEntry, key: Option<string>)
    ensures StoryGroup(entries + [x], key) == StoryGroup(entries, key) + (if x.story == key then [x] else [])
  {
    assert (entries + [x])[..|entries|] == entries;
  }

  /** Grouping under keys that hold every story once loses no entry and
      repeats none: the groups are a permutation of the entries. */
  lemma {:induction false} GroupsPermute(entries: seq<LogEntry>, keys: seq<Option<string>>)
    requires Order.NoDup(keys)
    requires forall i :: 0 <= i < |entries| ==> entries[i].story in keys
    ensures multiset(Grouped(entries, keys)) == multiset(entries)
    decreases |entries|
  {
    if |entries| == 0 {
      GroupedEmpty(keys);
    } else {
      var front := entries[..|entries| - 1];
      var x := entries[|entries| - 1];
      assert forall i :: 0 <= i < |front| ==> front[i] == entries[i];
      GroupsPermute(front, keys);
      GroupedSnoc(front, x, keys);
      assert front + [x] == entries;
    }
  }

  /** The groups of `story_keys` hold exactly the collected entries. */
  lemma StoryGroupsPermute(entries: seq<LogEntry>)
    ensures multiset(Grouped(entries, StoryKeys(entries))) == multiset(entries)
  {
    GroupsPermute(entries, StoryKeys(entries));
  }

  // ---------------------------------------------------------------------------
  // The summary section
  // ---------------------------------------------------------------------------

  /** The heading of a story's group; entries without a story, and those
      with an empty one, go under the general heading. */
  function Label(key: Option<string>): string {
    if Truthy(key) then "**" + key.value + "**:" else "**G\U{e9}n\U{e9}ral**:"
  }

  /** The summary line of an entry: its day, its time, its agent when it
      has one, the dash and the message. */
  function SummaryLine(e: LogEntry): string {
    "- " + e.date + " " + e.time + AgentTag(e.agent) + Dash + e.message
  }

  function Summaries(es: seq<LogEntry>): (r: seq<string>)
    ensures |r| == |es| && forall i :: 0 <= i < |es| ==> r[i] == SummaryLine(es[i])
  {
    seq(|es|, i requires 0 <= i < |es| => SummaryLine(es[i]))
  }

  /** The lines of the groups of `keys`: each group's heading, the summary
      lines of its entries and a blank line. */
  function GroupLines(entries: seq<LogEntry>, keys: seq<Option<string>>): seq<string> {
    if |keys| == 0 then []
    else [Label(keys[0])] + Summaries(StoryGroup(entries, keys[0])) + [""] + GroupLines(entries, keys[1..])
  }

  /** The lines of the section that consolidates `entries` on `today`: a
      blank line, the marker naming the day, a blank line and the groups. */
  function Section(entries: seq<LogEntry>, today: string): seq<string> {
    ["", MarkerPrefix + today, ""] + GroupLines(entries, StoryKeys(entries))
  }

  /** Every group contributes its heading, one line per entry and a blank
      line. */
  lemma {:induction false} GroupLinesSize(entries: seq<LogEntry>, keys: seq<Option<string>>)
    ensures |GroupLines(entries, keys)| == |Grouped(entries, keys)| + 2 * |keys|
    decreases |keys|
  {
    if |keys| > 0 {
      GroupLinesSize(entries, keys[1..]);
    }
  }

  /** The section has one summary line per collected entry, besides its
      three opening lines and two lines per group. */
  lemma SectionSize(entries: seq<LogEntry>, today: string)
    ensures |Section(entries, today)| == 3 + |entries| + 2 * |StoryKeys(entries)|
  {
    GroupLinesSize(entries, StoryKeys(entries));
    StoryGroupsPermute(entries);
    assert |multiset(Grouped(entries, StoryKeys(entries)))| == |multiset(entries)|;
  }

  /** A line of the section after the marker: empty, a heading or a summary
      line, on one line. */
  predicate Quiet(line: string) {
    OneLine(line) && (|line| == 0 || line[0] == '*' || line[0] == '-')
  }

  lemma LabelQuiet(key: Option<string>)
    requires key.Some? ==> OneLine(key.value)
    ensures Quiet(Label(key))
  {
    if Truthy(key) {
      assert Label(key) == "**" + key.value + "**:";
      assert Label(key)[0] == '*';
    }
  }

  lemma SummaryQuiet(e: LogEntry)
    requires Plain(e) && OneLine(e.date)
    ensures Quiet(SummaryLine(e))
  {
    var a := AgentTag(e.agent);
    assert OneLine(a);
    assert OneLine(e.time) && OneLine(e.message);
    var p := "- " + e.date + " " + e.time + a + Dash;
    assert OneLine(p);
    assert SummaryLine(e) == p + e.message;
    assert SummaryLine(e)[0] == '-';
  }

  /** The group lines of entries on single lines are quiet. */
  lemma {:induction false} GroupLinesQuiet(entries: seq<LogEntry>, keys: seq<Option<string>>)
    requires AllPlain(entries)
    requires forall i :: 0 <= i < |keys| && keys[i].Some? ==> OneLine(keys[i].value)
    ensures forall j :: 0 <= j < |GroupLines(entries, keys)| ==> Quiet(GroupLines(entries, keys)[j])
    decreases |keys|
  {
    if |keys| > 0 {
      GroupLinesQuiet(entries, keys[1..]);
      LabelQuiet(keys[0]);
      var g := StoryGroup(entries, keys[0]);
      forall i | 0 <= i < |g|
        ensures Quiet(Summaries(g)[i])
      {
        assert g[i] in entries;
        SummaryQuiet(g[i]);
      }
      BlockQuiet(Label(keys[0]), Summaries(g), GroupLines(entries, keys[1..]));
    }
  }

  /** A quiet heading, quiet lines, a blank line and quiet lines are quiet
      lines. */
  lemma BlockQuiet(head: string, body: seq<string>, rest: seq<string>)
    requires Quiet(head)
    requires forall i :: 0 <= i < |body| ==> Quiet(body[i])
    requires forall i :: 0 <= i < |rest| ==> Quiet(rest[i])
    ensures forall j :: 0 <= j < |[head] + body + [""] + rest| ==> Quiet(([head] + body + [""] + rest)[j])
  {
    var lines := [head] + body + [""] + rest;
    forall j | 0 <= j < |lines|
      ensures Quiet(lines[j])
    {
      if j == 0 {
      } else if j <= |body| {
        assert lines[j] == body[j - 1];
      } else if j == |body| + 1 {
        assert lines[j] == "";
      } else {
        assert lines[j] == rest[j - |body| - 2];
      }
    }
  }

  // ---------------------------------------------------------------------------
  // A run
  // ---------------------------------------------------------------------------

  /** What a run of `consolidate` reports and appends to `MEMORY.md`. */
  datatype Outcome = Outcome(count: nat, appended: Option<string>)

  /** `consolidate(root)`: `memory` is the content of `MEMORY.md` (None when
      it does not exist), `isDir` and `names` describe the sessions
      directory, `read` gives a journal's content by its name and `today`
      is the day of the run. */
  function Consolidate(memory: Option<string>, isDir: bool, names: seq<string>,
                       read: string -> string, today: string): (r: Outcome)
    ensures r.count == |AllEntries(SessionFiles(isDir, names, LastConsolidationDate(memory)), read)|
    ensures r.appended.None? <==> r.count == 0
    ensures r.appended.Some? ==> StartsWith(r.appended.value, "\n" + MarkerPrefix + today + "\n")
  {
    var files := SessionFiles(isDir, names, LastConsolidationDate(memory));
    if |files| == 0 then
      assert AllEntries(files, read) == [];
      Outcome(0, None)
    else
      var entries := AllEntries(files, read);
      if |entries| == 0 then Outcome(0, None)
      else
        SectionText(entries, today);
        Outcome(|entries|, Some(Join(Section(entries, today), "\n")))
  }

  /** The text of a section opens with a line break and the marker line. */
  lemma SectionText(entries: seq<LogEntry>, today: string)
    ensures Join(Section(entries, today), "\n") == "\n" + Join([MarkerPrefix + today, ""] + GroupLines(entries, StoryKeys(entries)), "\n")
    ensures StartsWith(Join(Section(entries, today), "\n"), "\n" + MarkerPrefix + today + "\n")
  {
    OpenedText(Section(entries, today), MarkerPrefix + today, GroupLines(entries, StoryKeys(entries)));
  }

  /** Lines that open with a blank line, `m` and a blank line are joined
      into a line break, `m` and a line break before the rest. */
  lemma OpenedText(lines: seq<string>, m: string, g: seq<string>)
    requires lines == ["", m, ""] + g
    ensures Join(lines, "\n") == "\n" + Join([m, ""] + g, "\n")
    ensures StartsWith(Join(lines, "\n"), "\n" + m + "\n")
  {
    assert lines == [""] + ([m, ""] + g);
    JoinCons("", [m, ""] + g, "\n");
    assert [m, ""] + g == [m] + ([""] + g);
    JoinCons(m, [""] + g, "\n");
    var t := Join([""] + g, "\n");
    assert ("\n" + m + "\n" + t)[..|"\n" + m + "\n"|] == "\n" + m + "\n";
  }

  /** `MEMORY.md` after a run: the section appended, the file created if
      need be; untouched when nothing is appended. */
  function MemoryAfter(memory: Option<string>, o: Outcome): (r: Option<string>)
    ensures o.appended.None? ==> r == memory
    ensures o.appended.Some? ==> r.Some? && EndsWith(r.value, o.appended.value)
    ensures o.appended.Some? && memory.Some? ==> StartsWith(r.value, memory.value)
  {
    match o.appended
    case None => memory
    case Some(text) =>
      var before := if memory.Some? then memory.value else "";
      assert (before + text)[|before + text| - |text|..] == text;
      Some(before + text)
  }

  // ---------------------------------------------------------------------------
  // Running twice
  // ---------------------------------------------------------------------------

  /** Text followed by a line break, the marker of `today`, a blank line and
      quiet lines reads back with its last marker naming `today`, whatever
      the text held. */
  lemma MarksAfter(prior: string, m: string, today: string, g: seq<string>)
    requires IsDate(today) && m == MarkerPrefix + today
    requires forall j :: 0 <= j < |g| ==> Quiet(g[j])
    ensures LastMarker(Split(Newlines(prior + ("\n" + Join([m, ""] + g, "\n"))), '\n')) == Some(today)
  {
    var rest := [m, ""] + g;
    assert '\r' !in m by {
      forall i | 0 <= i < |m|
        ensures m[i] != '\r'
      {
        if i >= 20 {
          assert m[i] == today[i - 20];
        }
      }
    }
    forall j | 0 <= j < |rest|
      ensures '\r' !in rest[j]
    {
      if j >= 2 {
        assert rest[j] == g[j - 2];
      }
    }
    JoinLacks(rest, "\n", '\r');
    var p := ReadSection(prior, "\n" + Join(rest, "\n"));
    MarksAfterRead(p, m, today, g);
  }

  /** Text followed by a section that opens with a line break and holds no
      carriage return reads back as some text followed by the section: a
      '\r' that ends the text pairs with that line break into one. */
  lemma ReadSection(prior: string, sec: string) returns (p: string)
    requires |sec| > 0 && sec[0] == '\n' && '\r' !in sec
    ensures Newlines(prior + sec) == p + sec
  {
    if |prior| > 0 && prior[|prior| - 1] == '\r' {
      var o := prior[..|prior| - 1];
      assert prior + sec == o + ("\r" + sec);
      NewlinesConcat(o, "\r" + sec);
      CrBeforeBreak(sec);
      p := Newlines(o);
    } else {
      NewlinesConcat(prior, sec);
      NewlinesPlain(sec);
      p := Newlines(prior);
    }
  }

  /** A '\r' before a section that opens with a line break pairs with it. */
  lemma CrBeforeBreak(sec: string)
    requires |sec| > 0 && sec[0] == '\n' && '\r' !in sec
    ensures Newlines("\r" + sec) == sec
  {
    var t := "\r" + sec;
    assert t[2..] == sec[1..];
    assert '\r' !in sec[1..] by {
      assert forall i :: 0 <= i < |sec[1..]| ==> sec[1..][i] == sec[i + 1];
    }
    NewlinesPlain(sec[1..]);
    assert sec == "\n" + sec[1..];
  }

  /** Text as read back, followed by a line break, the marker of `today`, a
      blank line and quiet lines: its last marker names `today`. */
  lemma MarksAfterRead(prior: string, m: string, today: string, g: seq<string>)
    requires IsDate(today) && m == MarkerPrefix + today
    requires forall j :: 0 <= j < |g| ==> Quiet(g[j])
    ensures LastMarker(Split(prior + ("\n" + Join([m, ""] + g, "\n")), '\n')) == Some(today)
  {
    var rest := [m, ""] + g;
    assert '\n' !in m by {
      forall i | 0 <= i < |m|
        ensures m[i] != '\n'
      {
        if i >= 20 {
          assert m[i] == today[i - 20];
        }
      }
    }
    forall j | 0 <= j < |rest|
      ensures '\n' !in rest[j]
    {
      if j >= 2 {
        assert rest[j] == g[j - 2];
      }
    }
    SplitJoin(rest, '\n');
    assert prior + ("\n" + Join(rest, "\n")) == prior + ['\n'] + Join(rest, "\n");
    SplitConcat(prior, '\n', Join(rest, "\n"));
    MarkerRead(today);
    forall j | 0 < j < |rest|
      ensures LineMarker(rest[j]).None?
    {
      if j >= 2 {
        assert rest[j] == g[j - 2];
      }
      NoMarker(rest[j]);
    }
    LastMarkerAfter(Split(prior, '\n'), rest, today);
  }

  /** Whatever `MEMORY.md` held, once a section for `today` is appended its
      last marker names `today`. */
  lemma SectionMarks(prior: string, entries: seq<LogEntry>, today: string)
    requires IsDate(today)
    requires AllPlain(entries)
    ensures LastMarker(Split(Newlines(prior + Join(Section(entries, today), "\n")), '\n')) == Some(today)
  {
    var keys := StoryKeys(entries);
    forall i | 0 <= i < |keys| && keys[i].Some?
      ensures OneLine(keys[i].value)
    {
      assert keys[i] in keys;
      var k :| 0 <= k < |entries| && entries[k].story == keys[i];
    }
    GroupLinesQuiet(entries, keys);
    SectionText(entries, today);
    MarksAfter(prior, MarkerPrefix + today, today, GroupLines(entries, keys));
  }

  /** The chosen journals come from the listing. */
  lemma SessionFilesNames(isDir: bool, names: seq<string>, after: Option<string>)
    requires forall i :: 0 <= i < |names| ==> OneLine(names[i])
    ensures var files := SessionFiles(isDir, names, after);
      forall i :: 0 <= i < |files| ==> OneLine(files[i])
  {
    var files := SessionFiles(isDir, names, after);
    forall i | 0 <= i < |files|
      ensures OneLine(files[i])
    {
      assert files[i] in files;
      var j :| 0 <= j < |names| && names[j] == files[i];
    }
  }

  /** After a run that appends, `MEMORY.md` names today as the last
      consolidation, whatever it held before. */
  lemma ConsolidateMarks(memory: Option<string>, isDir: bool, names: seq<string>,
                         read: string -> string, today: string)
    requires IsDate(today)
    requires forall i :: 0 <= i < |names| ==> OneLine(names[i])
    ensures var o := Consolidate(memory, isDir, names, read, today);
      o.appended.Some? ==> LastConsolidationDate(MemoryAfter(memory, o)) == Some(today)
  {
    var o := Consolidate(memory, isDir, names, read, today);
    if o.appended.Some? {
      var files := SessionFiles(isDir, names, LastConsolidationDate(memory));
      var entries := AllEntries(files, read);
      SessionFilesNames(isDir, names, LastConsolidationDate(memory));
      AllEntriesPlain(files, read);
      var prior := if memory.Some? then memory.value else "";
      SectionMarks(prior, entries, today);
      assert o.appended.value == Join(Section(entries, today), "\n");
    }
  }

  /** No journal is chosen after a day that no journal's name passes. */
  lemma NoneAfter(isDir: bool, names: seq<string>, today: string)
    requires Truthy(Some(today))
    requires forall i :: 0 <= i < |names| ==> Order.StrLe(Stem(names[i]), today)
    ensures SessionFiles(isDir, names, Some(today)) == []
  {
    if isDir {
      var sorted := Order.SortStrings(names);
      Order.SortStringsHas(names);
      forall i | 0 <= i < |sorted|
        ensures !Selected(sorted[i], Some(today))
      {
        assert sorted[i] in names;
        var j :| 0 <= j < |names| && names[j] == sorted[i];
      }
      KeepNone(sorted, Some(today));
    }
  }

  /** Nothing is kept from names none of which is chosen. */
  lemma {:induction false} KeepNone(names: seq<string>, after: Option<string>)
    requires forall i :: 0 <= i < |names| ==> !Selected(names[i], after)
    ensures Keep(names, after) == []
    decreases |names|
  {
    if |names| > 0 {
      KeepNone(names[1..], after);
    }
  }

  /** Running again on the same day, with no journal of a later day, finds
      nothing to do and leaves `MEMORY.md` as the first run left it. */
  lemma ConsolidateAgain(memory: Option<string>, isDir: bool, names: seq<string>,
                         read: string -> string, today: string)
    requires IsDate(today)
    requires forall i :: 0 <= i < |names| ==> OneLine(names[i])
    requires forall i :: 0 <= i < |names| ==> Order.StrLe(Stem(names[i]), today)
    ensures var after := MemoryAfter(memory, Consolidate(memory, isDir, names, read, today));
      Consolidate(after, isDir, names, read, today) == Outcome(0, None)
      && MemoryAfter(after, Outcome(0, None)) == after
  {
    var o := Consolidate(memory, isDir, names, read, today);
    if o.appended.Some? {
      ConsolidateMarks(memory, isDir, names, read, today);
      NothingNew(MemoryAfter(memory, o), isDir, names, read, today);
    } else {
      assert o == Outcome(0, None) && MemoryAfter(memory, o) == memory;
    }
  }

  /** A run after a consolidation of `today`, with no journal of a later
      day, does nothing. */
  lemma NothingNew(memory: Option<string>, isDir: bool, names: seq<string>,
                   read: string -> string, today: string)
    requires IsDate(today) && LastConsolidationDate(memory) == Some(today)
    requires forall i :: 0 <= i < |names| ==> Order.StrLe(Stem(names[i]), today)
    ensures Consolidate(memory, isDir, names, read, today) == Outcome(0, None)
  {
    NoneAfter(isDir, names, today);
  }

  /** An entry with an empty story tag and one with none get two groups of
      their own, both under the general heading. */
  lemma GeneralTwice(a: LogEntry, b: LogEntry)
    requires a.story == Some("") && b.story == None
    ensures Some("") in StoryKeys([a, b]) && None in StoryKeys([a, b])
    ensures Label(Some("")) == Label(None)
  {
    assert [a, b][0].story == Some("") && [a, b][1].story == None;
  }

  /** The one journal of a project that was never consolidated, in its own
      sessions directory, is chosen. */
  lemma OnlyJournal(n: string)
    requires EndsWith(n, ".md")
    ensures SessionFiles(true, [n], None) == [n]
  {
    assert Order.SortStrings([n]) == [n] by {
      assert [n][..0] == [];
    }
    assert Keep([n], None) == [n] by {
      assert [n][1..] == [];
    }
  }

  /** A day's first log entry is the one entry the next consolidation of a
      project never consolidated before collects. */
  lemma LoggedConsolidated(root: string, date: string, time: string, message: string,
                           agent: Option<string>, story: Option<string>, today: string)
    requires IsDate(date) && IsTime(time)
    requires agent.Some? ==> ']' !in agent.value && OneLine(agent.value)
    requires story.Some? ==> ')' !in story.value && OneLine(story.value)
    requires OneLine(message) && !IsBlank(message)
    ensures var journal := Log(root, date, time, None, message, agent, story).content;
      Consolidate(None, true, [date + ".md"], _ => journal, today).count == 1
  {
    var n := date + ".md";
    var journal := Log(root, date, time, None, message, agent, story).content;
    var read: string -> string := _ => journal;
    LogAppendsEntry(root, date, time, None, message, agent, story);
    DateStem(date);
    assert EndsWith(n, ".md") by {
      assert n[|n| - 3..] == ".md";
    }
    OnlyJournal(n);
    GatherOne(n, FileParser(read));
    assert AllEntries([n], read) == JournalEntries(date, journal);
  }
}

/** Markdown-aware chunking (`chunker.py`).

    A document is split on "\n" into lines (0-based indices), the lines into
    sections opened by `##`/`###` headings, each section's lines into blocks
    (a fenced code block is one block, every other line its own block), and
    the blocks are packed greedily into chunks of at most `chunk_size * 4`
    characters, with a tail of the previous chunk re-used as the start of the
    next one after a size flush.

    Sections and blocks are recorded as half-open ranges `[startLine,
    endLine)` of line indices into the document; their lines are the
    corresponding slice of the document's lines. */
module Chunker {
  import opened Base

  /** One token is estimated as four characters. */
  const CharsPerToken := 4
  /** Default chunk size and overlap, in tokens. */
  const ChunkSizeTokens := 400
  const ChunkOverlapTokens := 80

  datatype Chunk = Chunk(text: string, startLine: int, endLine: int, heading: Option<string>, tokenCount: int)

  /** `max(1, len(text) // 4)` */
  function EstimateTokens(text: string): (n: int)
    ensures n >= 1
    ensures n * CharsPerToken <= |text| < (n + 1) * CharsPerToken || (n == 1 && |text| < CharsPerToken)
  {
    if |text| / CharsPerToken >= 1 then |text| / CharsPerToken else 1
  }

  /** `_HEADING_RE.match(line)` for `^(#{2,3})\s+(.+)$` on a line that holds
      no "\n": two or three '#', a whitespace character, then at least one
      more character (the whitespace run may give one character back to
      `.+`). */
  predicate IsHeading(line: string) {
    || (|line| >= 4 && line[0] == '#' && line[1] == '#' && IsSpace(line[2]))
    || (|line| >= 5 && line[0] == '#' && line[1] == '#' && line[2] == '#' && IsSpace(line[3]))
  }

  /** `_is_code_fence(line)`: after its leading whitespace the line
      starts with three backticks. `FenceStrip` shows this is the same as
      the stripped line starting with them. */
  predicate IsFence(line: string) {
    var i := Indent(line, 0);
    i + 3 <= |line| && line[i] == '`' && line[i + 1] == '`' && line[i + 2] == '`'
  }

  lemma FenceStrip(line: string)
    ensures IsFence(line) <==> StartsWith(Strip(line), "```")
  {
    var i := Indent(line, 0);
    var t := LStrip(line);
    var e := TrimmedEnd(t, |t|);
    assert Strip(line) == t[..e];
    if IsFence(line) {
      assert t[2] == line[i + 2];
      assert e >= 3;
      assert t[..e][..3] == line[i..i + 3];
    }
    if StartsWith(Strip(line), "```") {
      assert t[..e][2] == line[i + 2];
    }
  }

  lemma FenceNotBlank(line: string)
    requires IsFence(line)
    ensures !IsBlank(line)
  {
    assert !IsSpace(line[Indent(line, 0)]);
  }

  // ---------------------------------------------------------------------------
  // Sections
  // ---------------------------------------------------------------------------

  /** A section: its heading (None for the headless leading section) and
      the range of its lines. */
  datatype Section = Section(heading: Option<string>, startLine: nat, endLine: nat)

  /** The sections cut the line range `[from, n)` into consecutive non-empty
      ranges. */
  ghost predicate SectionTiles(n: nat, secs: seq<Section>, from: nat) {
    && (|secs| == 0 ==> from == n)
    && (|secs| > 0 ==> secs[0].startLine == from && secs[|secs| - 1].endLine == n)
    && (forall k :: 0 <= k < |secs| ==> secs[k].startLine < secs[k].endLine <= n)
    && (forall i, j {:trigger secs[i], secs[j]} :: 0 <= i && j == i + 1 && j < |secs| ==> secs[i].endLine == secs[j].startLine)
  }

  /** A section opens with its heading line, whose stripped text is the
      section's heading, or is the headless leading section; no other line
      of it is a heading line. */
  ghost predicate WellHeaded(lines: seq<string>, s: Section) {
    && s.startLine < s.endLine <= |lines|
    && (s.heading.Some? <==> IsHeading(lines[s.startLine]))
    && (s.heading.Some? ==> s.heading.value == Strip(lines[s.startLine]))
    && (s.heading.None? ==> s.startLine == 0)
    && (forall j :: s.startLine < j < s.endLine ==> !IsHeading(lines[j]))
  }

  ghost predicate ValidSections(lines: seq<string>, secs: seq<Section>) {
    SectionTiles(|lines|, secs, 0) && forall k :: 0 <= k < |secs| ==> WellHeaded(lines, secs[k])
  }

  /** `_split_into_sections(lines)` */
  function SplitIntoSections(lines: seq<string>): (secs: seq<Section>)
    ensures ValidSections(lines, secs)
  {
    SectionsFromTiles(lines, 0, None, 0);
    SectionsFromHeaded(lines, 0, None, 0);
    SectionsFrom(lines, 0, None, 0)
  }

  /** The loop of `_split_into_sections` from line `idx` on; the section
      being collected has heading `heading` and covers `[start, idx)`. */
  function SectionsFrom(lines: seq<string>, idx: nat, heading: Option<string>, start: nat): seq<Section>
    requires start <= idx <= |lines|
    decreases |lines| - idx
  {
    var flushed := if start < idx then [Section(heading, start, idx)] else [];
    if idx == |lines| then flushed
    else if IsHeading(lines[idx]) then flushed + SectionsFrom(lines, idx + 1, Some(Strip(lines[idx])), idx)
    else SectionsFrom(lines, idx + 1, heading, start)
  }

  lemma {:induction false} SectionsFromTiles(lines: seq<string>, idx: nat, heading: Option<string>, start: nat)
    requires start <= idx <= |lines|
    ensures SectionTiles(|lines|, SectionsFrom(lines, idx, heading, start), start)
    decreases |lines| - idx
  {
    if idx < |lines| {
      if IsHeading(lines[idx]) {
        var next := Some(Strip(lines[idx]));
        SectionsFromTiles(lines, idx + 1, next, idx);
        if start < idx {
          ConsTiles(|lines|, Section(heading, start, idx), SectionsFrom(lines, idx + 1, next, idx));
        }
      } else {
        SectionsFromTiles(lines, idx + 1, heading, start);
      }
    }
  }

  lemma ConsTiles(n: nat, s: Section, rest: seq<Section>)
    requires s.startLine < s.endLine <= n
    requires SectionTiles(n, rest, s.endLine)
    ensures SectionTiles(n, [s] + rest, s.startLine)
  {
    var t := [s] + rest;
    assert forall k :: 0 < k < |t| ==> t[k] == rest[k - 1];
  }

  /** The loop invariant of `_split_into_sections`: the section being
      collected opens with its heading line (or is the headless leading
      one) and holds no other heading line. */
  ghost predicate Collecting(lines: seq<string>, idx: nat, heading: Option<string>, start: nat) {
    && start <= idx <= |lines|
    && (heading.None? ==> start == 0)
    && (heading.Some? ==> start < idx && IsHeading(lines[start]) && heading.value == Strip(lines[start]))
    && (forall j :: start < j < idx ==> !IsHeading(lines[j]))
    && (heading.None? ==> forall j :: start <= j < idx ==> !IsHeading(lines[j]))
  }

  lemma {:induction false} SectionsFromHeaded(lines: seq<string>, idx: nat, heading: Option<string>, start: nat)
    requires Collecting(lines, idx, heading, start)
    ensures forall k :: 0 <= k < |SectionsFrom(lines, idx, heading, start)| ==> WellHeaded(lines, SectionsFrom(lines, idx, heading, start)[k])
    decreases |lines| - idx
  {
    var r := SectionsFrom(lines, idx, heading, start);
    if idx == |lines| {
      if start < idx {
        FlushedHeaded(lines, idx, heading, start);
        assert r == [Section(heading, start, idx)];
      } else {
        assert r == [];
      }
    } else if IsHeading(lines[idx]) {
      var next := Some(Strip(lines[idx]));
      var rest := SectionsFrom(lines, idx + 1, next, idx);
      NextCollecting(lines, idx, heading, start);
      SectionsFromHeaded(lines, idx + 1, next, idx);
      if start < idx {
        FlushedHeaded(lines, idx, heading, start);
        assert r == [Section(heading, start, idx)] + rest;
        ConsHeaded(lines, Section(heading, start, idx), rest);
      } else {
        assert r == rest;
      }
    } else {
      assert r == SectionsFrom(lines, idx + 1, heading, start);
      SectionsFromHeaded(lines, idx + 1, heading, start);
    }
  }

  /** The section collected when the loop meets a heading line or the end. */
  lemma FlushedHeaded(lines: seq<string>, idx: nat, heading: Option<string>, start: nat)
    requires Collecting(lines, idx, heading, start) && start < idx
    ensures WellHeaded(lines, Section(heading, start, idx))
  {
  }

  lemma NextCollecting(lines: seq<string>, idx: nat, heading: Option<string>, start: nat)
    requires Collecting(lines, idx, heading, start) && idx < |lines|
    ensures IsHeading(lines[idx]) ==> Collecting(lines, idx + 1, Some(Strip(lines[idx])), idx)
    ensures !IsHeading(lines[idx]) ==> Collecting(lines, idx + 1, heading, start)
  {
  }

  lemma ConsHeaded(lines: seq<string>, s: Section, rest: seq<Section>)
    requires WellHeaded(lines, s) && forall k :: 0 <= k < |rest| ==> WellHeaded(lines, rest[k])
    ensures forall k :: 0 <= k < |[s] + rest| ==> WellHeaded(lines, ([s] + rest)[k])
  {
    var t := [s] + rest;
    assert forall k :: 0 < k < |t| ==> t[k] == rest[k - 1];
  }

  /** A section ends at the last line or just before a heading line. */
  lemma FirstSectionEnd(lines: seq<string>, secs: seq<Section>, from: nat)
    requires SectionTiles(|lines|, secs, from) && |secs| > 0
    requires forall k :: 0 <= k < |secs| ==> WellHeaded(lines, secs[k])
    ensures secs[0].endLine == |lines| || IsHeading(lines[secs[0].endLine])
  {
    if |secs| > 1 {
      assert WellHeaded(lines, secs[1]) && secs[1].startLine == secs[0].endLine > 0;
    }
  }

  /** The sectioning is determined by the lines: any valid sectioning is
      the one `SplitIntoSections` computes. */
  lemma SectionsUnique(lines: seq<string>, secs: seq<Section>)
    requires ValidSections(lines, secs)
    ensures secs == SplitIntoSections(lines)
  {
    SectionsUniqueFrom(lines, secs, SplitIntoSections(lines), 0);
  }

  lemma {:induction false} SectionsUniqueFrom(lines: seq<string>, a: seq<Section>, b: seq<Section>, from: nat)
    requires SectionTiles(|lines|, a, from) && SectionTiles(|lines|, b, from)
    requires forall k :: 0 <= k < |a| ==> WellHeaded(lines, a[k])
    requires forall k :: 0 <= k < |b| ==> WellHeaded(lines, b[k])
    ensures a == b
    decreases |lines| - from
  {
    if |a| > 0 && |b| > 0 {
      FirstSectionEnd(lines, a, from);
      FirstSectionEnd(lines, b, from);
      SameFirstSection(lines, a[0], b[0]);
      SectionTilesTail(|lines|, a, from);
      SectionTilesTail(|lines|, b, from);
      HeadedTail(lines, a);
      HeadedTail(lines, b);
      SectionsUniqueFrom(lines, a[1..], b[1..], a[0].endLine);
      assert a == [a[0]] + a[1..] && b == [b[0]] + b[1..];
    }
  }

  lemma SectionTilesTail(n: nat, secs: seq<Section>, from: nat)
    requires SectionTiles(n, secs, from) && |secs| > 0
    ensures SectionTiles(n, secs[1..], secs[0].endLine)
  {
  }

  lemma HeadedTail(lines: seq<string>, secs: seq<Section>)
    requires |secs| > 0 && forall k :: 0 <= k < |secs| ==> WellHeaded(lines, secs[k])
    ensures forall k :: 0 <= k < |secs[1..]| ==> WellHeaded(lines, secs[1..][k])
  {
  }

  lemma SameFirstSection(lines: seq<string>, s: Section, t: Section)
    requires WellHeaded(lines, s) && WellHeaded(lines, t) && s.startLine == t.startLine
    requires s.endLine == |lines| || IsHeading(lines[s.endLine])
    requires t.endLine == |lines| || IsHeading(lines[t.endLine])
    ensures s == t
  {
    SectionEndBound(lines, s, t);
    SectionEndBound(lines, t, s);
  }

  /** A section cannot run past a heading line that another section starting
      at the same line stops before. */
  lemma SectionEndBound(lines: seq<string>, s: Section, t: Section)
    requires WellHeaded(lines, s) && WellHeaded(lines, t) && s.startLine == t.startLine
    requires s.endLine == |lines| || IsHeading(lines[s.endLine])
    ensures t.endLine <= s.endLine
  {
    if s.endLine < |lines| {
      assert IsHeading(lines[s.endLine]);
    }
  }

  /** The heading in force at line `i`: the nearest heading line at or
      before it, stripped, or None when there is none. */
  function HeadingAt(lines: seq<string>, i: nat): Option<string>
    requires i < |lines|
  {
    if IsHeading(lines[i]) then Some(Strip(lines[i]))
    else if i == 0 then None
    else HeadingAt(lines, i - 1)
  }

  /** Every line of a well-headed section sees the section's heading. */
  lemma {:induction false} HeadingAtSection(lines: seq<string>, s: Section, i: nat)
    requires WellHeaded(lines, s) && s.startLine <= i < s.endLine
    ensures HeadingAt(lines, i) == s.heading
    decreases i
  {
    if i > s.startLine {
      HeadingAtSection(lines, s, i - 1);
    }
  }

  // ---------------------------------------------------------------------------
  // Blocks
  // ---------------------------------------------------------------------------

  /** A block of a section: a range of its lines, and whether it is a fenced
      code block. */
  datatype Block = Block(startLine: nat, endLine: nat, isCode: bool)

  /** The blocks cut the line range `[from, hi)` into consecutive non-empty
      ranges. */
  ghost predicate BlockTiles(hi: nat, blocks: seq<Block>, from: nat) {
    && (|blocks| == 0 ==> from == hi)
    && (|blocks| > 0 ==> blocks[0].startLine == from && blocks[|blocks| - 1].endLine == hi)
    && (forall k :: 0 <= k < |blocks| ==> blocks[k].startLine < blocks[k].endLine <= hi)
    && (forall i, j {:trigger blocks[i], blocks[j]} :: 0 <= i && j == i + 1 && j < |blocks| ==> blocks[i].endLine == blocks[j].startLine)
  }

  /** A plain block is one line that is not a fence. A code block opens with
      a fence line and holds no other fence line except a closing one as its
      last line; without a closing fence it runs to the end of the section. */
  ghost predicate BlockShape(lines: seq<string>, hi: nat, b: Block) {
    && b.startLine < b.endLine <= hi <= |lines|
    && (!b.isCode ==> b.endLine == b.startLine + 1 && !IsFence(lines[b.startLine]))
    && (b.isCode ==> IsFence(lines[b.startLine]))
    && (b.isCode ==> forall j :: b.startLine < j < b.endLine - 1 ==> !IsFence(lines[j]))
    && (b.isCode ==>
          || (b.endLine - b.startLine >= 2 && IsFence(lines[b.endLine - 1]))
          || (b.endLine == hi && (b.endLine - b.startLine == 1 || !IsFence(lines[b.endLine - 1]))))
  }

  ghost predicate ValidBlocks(lines: seq<string>, s: Section, blocks: seq<Block>) {
    && BlockTiles(s.endLine, blocks, s.startLine)
    && forall k :: 0 <= k < |blocks| ==> BlockShape(lines, s.endLine, blocks[k])
  }

  /** The block grouping loop of `_split_section_into_chunks` over the
      section's lines. */
  function SectionBlocks(lines: seq<string>, s: Section): (blocks: seq<Block>)
    requires s.startLine <= s.endLine <= |lines|
    ensures ValidBlocks(lines, s, blocks)
  {
    BlocksFromTiles(lines, s.endLine, s.startLine, None);
    BlocksFromShape(lines, s.endLine, s.startLine, None);
    BlocksFrom(lines, s.endLine, s.startLine, None)
  }

  /** The grouping loop from line `i` on; `code` is the first line of the
      open code block, if any. */
  function BlocksFrom(lines: seq<string>, hi: nat, i: nat, code: Option<nat>): seq<Block>
    requires i <= hi <= |lines|
    requires code.Some? ==> code.value < i
    decreases hi - i
  {
    if i == hi then
      if code.Some? then [Block(code.value, hi, true)] else []
    else if IsFence(lines[i]) then
      if code.Some? then [Block(code.value, i + 1, true)] + BlocksFrom(lines, hi, i + 1, None)
      else BlocksFrom(lines, hi, i + 1, Some(i))
    else if code.Some? then BlocksFrom(lines, hi, i + 1, code)
    else [Block(i, i + 1, false)] + BlocksFrom(lines, hi, i + 1, None)
  }

  lemma {:induction false} BlocksFromTiles(lines: seq<string>, hi: nat, i: nat, code: Option<nat>)
    requires i <= hi <= |lines|
    requires code.Some? ==> code.value < i
    ensures BlockTiles(hi, BlocksFrom(lines, hi, i, code), if code.Some? then code.value else i)
    decreases hi - i
  {
    var r := BlocksFrom(lines, hi, i, code);
    if i == hi {
      if code.Some? {
        assert r == [Block(code.value, hi, true)];
      } else {
        assert r == [];
      }
    } else if IsFence(lines[i]) {
      if code.Some? {
        var rest := BlocksFrom(lines, hi, i + 1, None);
        assert r == [Block(code.value, i + 1, true)] + rest;
        BlocksFromTiles(lines, hi, i + 1, None);
        ConsBlockTiles(hi, Block(code.value, i + 1, true), rest);
      } else {
        assert r == BlocksFrom(lines, hi, i + 1, Some(i));
        BlocksFromTiles(lines, hi, i + 1, Some(i));
      }
    } else if code.Some? {
      assert r == BlocksFrom(lines, hi, i + 1, code);
      BlocksFromTiles(lines, hi, i + 1, code);
    } else {
      var rest := BlocksFrom(lines, hi, i + 1, None);
      assert r == [Block(i, i + 1, false)] + rest;
      BlocksFromTiles(lines, hi, i + 1, None);
      ConsBlockTiles(hi, Block(i, i + 1, false), rest);
    }
  }

  lemma ConsBlockTiles(hi: nat, b: Block, rest: seq<Block>)
    requires b.startLine < b.endLine <= hi
    requires BlockTiles(hi, rest, b.endLine)
    ensures BlockTiles(hi, [b] + rest, b.startLine)
  {
    var t := [b] + rest;
    assert forall k :: 0 < k < |t| ==> t[k] == rest[k - 1];
  }

  /** While a code block is open, its lines so far hold no fence after the
      opening one. */
  ghost predicate OpenCode(lines: seq<string>, i: nat, code: Option<nat>)
    requires i <= |lines|
  {
    code.Some? ==> code.value < i && IsFence(lines[code.value]) && forall j :: code.value < j < i ==> !IsFence(lines[j])
  }

  lemma {:induction false} BlocksFromShape(lines: seq<string>, hi: nat, i: nat, code: Option<nat>)
    requires i <= hi <= |lines|
    requires OpenCode(lines, i, code)
    ensures forall k :: 0 <= k < |BlocksFrom(lines, hi, i, code)| ==> BlockShape(lines, hi, BlocksFrom(lines, hi, i, code)[k])
    decreases hi - i
  {
    var r := BlocksFrom(lines, hi, i, code);
    if i == hi {
      if code.Some? {
        assert r == [Block(code.value, hi, true)];
        assert BlockShape(lines, hi, r[0]);
      }
    } else if IsFence(lines[i]) {
      if code.Some? {
        var b := Block(code.value, i + 1, true);
        var rest := BlocksFrom(lines, hi, i + 1, None);
        assert r == [b] + rest;
        assert BlockShape(lines, hi, b);
        BlocksFromShape(lines, hi, i + 1, None);
        ConsBlockShape(lines, hi, b, rest);
      } else {
        assert r == BlocksFrom(lines, hi, i + 1, Some(i));
        BlocksFromShape(lines, hi, i + 1, Some(i));
      }
    } else if code.Some? {
      assert r == BlocksFrom(lines, hi, i + 1, code);
      assert OpenCode(lines, i + 1, code);
      BlocksFromShape(lines, hi, i + 1, code);
    } else {
      var b := Block(i, i + 1, false);
      var rest := BlocksFrom(lines, hi, i + 1, None);
      assert r == [b] + rest;
      BlocksFromShape(lines, hi, i + 1, None);
      ConsBlockShape(lines, hi, b, rest);
    }
  }

  lemma ConsBlockShape(lines: seq<string>, hi: nat, b: Block, rest: seq<Block>)
    requires BlockShape(lines, hi, b) && forall k :: 0 <= k < |rest| ==> BlockShape(lines, hi, rest[k])
    ensures forall k :: 0 <= k < |[b] + rest| ==> BlockShape(lines, hi, ([b] + rest)[k])
  {
    var t := [b] + rest;
    assert forall k :: 0 < k < |t| ==> t[k] == rest[k - 1];
  }

  // ---------------------------------------------------------------------------
  // Packing blocks into chunks
  // ---------------------------------------------------------------------------

  /** A block as the packing loop sees it: its text (the lines joined with
      "\n"), its first and last line, and whether it is a code block. */
  datatype Item = Item(text: string, startLine: int, endLine: int, isCode: bool)

  function ItemOf(lines: seq<string>, b: Block): Item
    requires b.startLine < b.endLine <= |lines|
  {
    Item(Join(lines[b.startLine..b.endLine], "\n"), b.startLine, b.endLine - 1, b.isCode)
  }

  /** A piece of text the packer emitted: the parts joined into the chunk
      text, whether the first part is an overlap seed, and the chunk's line
      range. */
  datatype Piece = Piece(parts: seq<string>, seeded: bool, startLine: int, endLine: int)

  /** The packing loop's state: the pieces emitted so far and the buffer
      (`current_text_parts`, `current_char_count`, `current_start_line`,
      `current_end_line`), with a record of whether its first part is an
      overlap seed. */
  datatype Packer = Packer(emitted: seq<Piece>, parts: seq<string>, seeded: bool, count: int, startLine: int, endLine: int)

  function PieceText(pc: Piece): string {
    Join(pc.parts, "\n")
  }

  /** The summed length of the parts, "\n" joiners not counted. */
  function SumLen(parts: seq<string>): nat {
    if |parts| == 0 then 0 else SumLen(parts[..|parts| - 1]) + |parts[|parts| - 1]|
  }

  function Min(a: int, b: int): int {
    if a <= b then a else b
  }

  function Max(a: int, b: int): int {
    if a >= b then a else b
  }

  /** `_flush()`: an empty buffer is left alone; otherwise its text is
      emitted unless it is blank, and the buffer is emptied (its line range
      is kept). */
  function Flush(p: Packer): Packer {
    if |p.parts| == 0 then p
    else
      var text := Join(p.parts, "\n");
      var emitted := if IsBlank(text) then p.emitted else p.emitted + [Piece(p.parts, p.seeded, p.startLine, p.endLine)];
      p.(emitted := emitted, parts := [], seeded := false, count := 0)
  }

  /** The overlap text cut from the previous chunk's text: its last
      `overlapChars` characters, from just after their first "\n" if they
      hold one. */
  function OverlapSeed(prev: string, overlapChars: int): (seed: string)
    requires overlapChars > 0
    ensures EndsWith(prev, seed) && |seed| <= overlapChars
    ensures var w := Min(overlapChars, |prev|);
      && ('\n' !in prev[|prev| - w..] ==> |seed| == w)
      && ('\n' in prev[|prev| - w..] ==>
            && |seed| < w && prev[|prev| - |seed| - 1] == '\n'
            && '\n' !in prev[|prev| - w..|prev| - |seed| - 1])
  {
    var k := |prev| - Min(overlapChars, |prev|);
    var nl := Find(prev[k..], '\n');
    if nl >= 0 then
      SeedCut(prev, k, nl);
      prev[k + nl + 1..]
    else
      SeedWhole(prev, k);
      prev[k..]
  }

  /** The window `prev[k..]` cut just after its first line break, at
      `k + nl`. */
  lemma SeedCut(prev: string, k: nat, nl: int)
    requires k <= |prev| && 0 <= nl < |prev| - k
    requires prev[k..][nl] == '\n' && '\n' !in prev[k..][..nl]
    ensures var seed := prev[k + nl + 1..];
      && EndsWith(prev, seed) && |seed| < |prev| - k
      && '\n' in prev[k..] && prev[|prev| - |seed| - 1] == '\n'
      && '\n' !in prev[k..|prev| - |seed| - 1]
  {
    assert prev[k..][..nl] == prev[k..k + nl];
    assert prev[k..][nl] == prev[k + nl];
  }

  /** A window without a line break is the seed as a whole. */
  lemma SeedWhole(prev: string, k: nat)
    requires k <= |prev|
    ensures EndsWith(prev, prev[k..])
  {
  }

  /** The overlap step after a size flush: when overlap is on and a chunk
      was emitted, a non-blank tail of its text seeds the buffer, whose
      start line is estimated back from that chunk's end line; otherwise the
      buffer starts at the block. */
  function Reseed(q: Packer, it: Item, lo: int, overlapChars: int): Packer {
    if overlapChars > 0 && |q.emitted| > 0 then
      var prev := q.emitted[|q.emitted| - 1];
      var seed := OverlapSeed(PieceText(prev), overlapChars);
      if !IsBlank(seed) then
        q.(parts := [seed], seeded := true, count := |seed|,
           startLine := Max(lo, prev.endLine - (Count(seed, '\n') + 1) + 1))
      else q.(startLine := it.startLine)
    else q.(startLine := it.startLine)
  }

  /** A code block longer than the chunk size. */
  predicate Oversized(it: Item, sizeChars: int) {
    it.isCode && |it.text| > sizeChars
  }

  /** One iteration of the packing loop of `_split_section_into_chunks`. */
  function Step(p: Packer, it: Item, lo: int, sizeChars: int, overlapChars: int): Packer {
    if Oversized(it, sizeChars) then
      var q := Flush(p);
      var r := Flush(q.(parts := [it.text], seeded := false, count := |it.text|, startLine := it.startLine, endLine := it.endLine));
      r.(startLine := it.endLine + 1, endLine := it.endLine + 1)
    else Append(Prepare(p, it, lo, sizeChars, overlapChars), it)
  }

  /** The size check with its flush and overlap step, and the start line
      of a buffer that is still empty. */
  function Prepare(p: Packer, it: Item, lo: int, sizeChars: int, overlapChars: int): Packer {
    var q := if p.count + |it.text| > sizeChars && |p.parts| > 0 then Reseed(Flush(p), it, lo, overlapChars) else p;
    if |q.parts| == 0 then q.(startLine := it.startLine) else q
  }

  /** The block's text joins the buffer, which now ends at the block. */
  function Append(q: Packer, it: Item): Packer {
    q.(parts := q.parts + [it.text], count := q.count + |it.text|, endLine := it.endLine)
  }

  /** The loop over the first `|items|` blocks of a section starting at
      line `lo`. */
  function Run(items: seq<Item>, lo: int, sizeChars: int, overlapChars: int): Packer {
    if |items| == 0 then Packer([], [], false, 0, lo, lo)
    else Step(Run(items[..|items| - 1], lo, sizeChars, overlapChars), items[|items| - 1], lo, sizeChars, overlapChars)
  }

  /** The pieces of a section: the loop, then the final `_flush()`. */
  function Pack(items: seq<Item>, lo: int, sizeChars: int, overlapChars: int): seq<Piece> {
    Flush(Run(items, lo, sizeChars, overlapChars)).emitted
  }

  // ---------------------------------------------------------------------------
  // Invariants of the packing loop
  // ---------------------------------------------------------------------------

  /** The size rule: a buffer holds a single part, or parts within the chunk
      size, or an overlap seed followed by the one block appended to it
      unchecked. */
  ghost predicate SizeOk(parts: seq<string>, seeded: bool, sizeChars: int) {
    |parts| == 1 || SumLen(parts) <= sizeChars || (seeded && |parts| == 2)
  }

  /** An overlap seed: a non-blank suffix of the previous chunk's text of
      at most `overlapChars` characters. */
  ghost predicate SeedOk(seed: string, prevText: string, overlapChars: int) {
    EndsWith(prevText, seed) && |seed| <= overlapChars && !IsBlank(seed)
  }

  ghost predicate PieceOk(pc: Piece, lo: int, sizeChars: int) {
    && |pc.parts| >= 1 && lo <= pc.startLine <= pc.endLine
    && !IsBlank(PieceText(pc)) && SizeOk(pc.parts, pc.seeded, sizeChars)
  }

  /** The emitted pieces are well formed, their end lines strictly
      increase, and a seeded piece starts with a seed cut from the piece
      before it. */
  ghost predicate PiecesOk(ps: seq<Piece>, lo: int, sizeChars: int, overlapChars: int) {
    && (forall j :: 0 <= j < |ps| ==> PieceOk(ps[j], lo, sizeChars))
    && (forall i, j :: 0 <= i < j < |ps| ==> ps[i].endLine < ps[j].endLine)
    && (|ps| > 0 ==> !ps[0].seeded)
    && (forall i, j {:trigger ps[i], ps[j]} :: 0 <= i && j == i + 1 && j < |ps| && ps[j].seeded ==>
          |ps[j].parts| > 0 && SeedOk(ps[j].parts[0], PieceText(ps[i]), overlapChars))
  }

  /** The buffer after the blocks up to line `hi` were processed. */
  ghost predicate BufferOk(p: Packer, lo: int, hi: int, sizeChars: int, overlapChars: int) {
    && p.count == SumLen(p.parts)
    && (|p.parts| == 0 ==> !p.seeded)
    && (|p.parts| > 0 ==> lo <= p.startLine <= p.endLine == hi && SizeOk(p.parts, p.seeded, sizeChars))
    && (p.seeded ==> |p.parts| >= 2 && |p.emitted| > 0 && SeedOk(p.parts[0], PieceText(p.emitted[|p.emitted| - 1]), overlapChars))
    && (forall j :: 0 <= j < |p.emitted| ==> p.emitted[j].endLine <= hi)
    && (|p.parts| > 0 ==> forall j :: 0 <= j < |p.emitted| ==> p.emitted[j].endLine < p.endLine)
  }

  lemma SumLenAppend(parts: seq<string>, t: string)
    ensures SumLen(parts + [t]) == SumLen(parts) + |t|
  {
    assert (parts + [t])[..|parts|] == parts;
  }

  /** A flush keeps the invariants, empties the buffer and only appends to
      the emitted pieces. */
  lemma FlushOk(p: Packer, lo: int, hi: int, sizeChars: int, overlapChars: int)
    requires PiecesOk(p.emitted, lo, sizeChars, overlapChars) && BufferOk(p, lo, hi, sizeChars, overlapChars)
    ensures var q := Flush(p);
      && PiecesOk(q.emitted, lo, sizeChars, overlapChars) && BufferOk(q, lo, hi, sizeChars, overlapChars)
      && q.parts == [] && q.startLine == p.startLine && q.endLine == p.endLine
      && p.emitted <= q.emitted
  {
    if |p.parts| > 0 && !IsBlank(Join(p.parts, "\n")) {
      var pc := Piece(p.parts, p.seeded, p.startLine, p.endLine);
      AppendPiece(p.emitted, pc, lo, sizeChars, overlapChars);
    }
  }

  lemma AppendPiece(ps: seq<Piece>, pc: Piece, lo: int, sizeChars: int, overlapChars: int)
    requires PiecesOk(ps, lo, sizeChars, overlapChars) && PieceOk(pc, lo, sizeChars)
    requires forall j :: 0 <= j < |ps| ==> ps[j].endLine < pc.endLine
    requires pc.seeded ==> |ps| > 0 && SeedOk(pc.parts[0], PieceText(ps[|ps| - 1]), overlapChars)
    ensures PiecesOk(ps + [pc], lo, sizeChars, overlapChars)
  {
    var qs := ps + [pc];
    assert forall j :: 0 <= j < |ps| ==> qs[j] == ps[j];
    assert qs[|ps|] == pc;
  }

  /** An oversized code block flushes the buffer, is emitted on its own,
      and leaves the buffer empty. */
  lemma OversizedStepOk(p: Packer, it: Item, lo: int, hi: int, sizeChars: int, overlapChars: int)
    requires PiecesOk(p.emitted, lo, sizeChars, overlapChars) && BufferOk(p, lo, hi, sizeChars, overlapChars)
    requires hi < it.startLine <= it.endLine && lo <= it.startLine && Oversized(it, sizeChars)
    ensures var r := Step(p, it, lo, sizeChars, overlapChars);
      && PiecesOk(r.emitted, lo, sizeChars, overlapChars) && BufferOk(r, lo, it.endLine, sizeChars, overlapChars)
      && p.emitted <= r.emitted && r.parts == []
      && (!IsBlank(it.text) ==> r.emitted == Flush(p).emitted + [Piece([it.text], false, it.startLine, it.endLine)])
  {
    FlushOk(p, lo, hi, sizeChars, overlapChars);
    var q := Flush(p);
    var q2 := q.(parts := [it.text], seeded := false, count := |it.text|, startLine := it.startLine, endLine := it.endLine);
    assert SumLen([it.text]) == |it.text| by {
      assert [it.text][..0] == [];
    }
    assert BufferOk(q2, lo, it.endLine, sizeChars, overlapChars);
    FlushOk(q2, lo, it.endLine, sizeChars, overlapChars);
  }

  /** The buffer once the size check and the overlap step are done, just
      before the block is appended. */
  ghost predicate Ready(q: Packer, it: Item, lo: int, hi: int, sizeChars: int, overlapChars: int) {
    && PiecesOk(q.emitted, lo, sizeChars, overlapChars)
    && q.count == SumLen(q.parts)
    && (forall j :: 0 <= j < |q.emitted| ==> q.emitted[j].endLine <= hi)
    && (|q.parts| == 0 ==> !q.seeded && q.startLine == it.startLine)
    && (|q.parts| > 0 ==> lo <= q.startLine <= hi && (SumLen(q.parts) + |it.text| <= sizeChars || (q.seeded && |q.parts| == 1)))
    && (q.seeded ==> |q.parts| >= 1 && |q.emitted| > 0 && SeedOk(q.parts[0], PieceText(q.emitted[|q.emitted| - 1]), overlapChars))
  }

  /** Appending the block to a ready buffer restores the invariants. */
  lemma AppendOk(q: Packer, it: Item, lo: int, hi: int, sizeChars: int, overlapChars: int)
    requires Ready(q, it, lo, hi, sizeChars, overlapChars)
    requires hi < it.startLine <= it.endLine && lo <= it.startLine
    ensures var r := Append(q, it);
      PiecesOk(r.emitted, lo, sizeChars, overlapChars) && BufferOk(r, lo, it.endLine, sizeChars, overlapChars)
  {
    SumLenAppend(q.parts, it.text);
    var r := Append(q, it);
    assert r.parts[0] == (if |q.parts| > 0 then q.parts[0] else it.text);
  }

  /** The size check and overlap step produce a ready buffer. */
  lemma PrepareOk(p: Packer, it: Item, lo: int, hi: int, sizeChars: int, overlapChars: int)
    requires PiecesOk(p.emitted, lo, sizeChars, overlapChars) && BufferOk(p, lo, hi, sizeChars, overlapChars)
    requires hi < it.startLine <= it.endLine && lo <= it.startLine
    ensures var q := Prepare(p, it, lo, sizeChars, overlapChars);
      Ready(q, it, lo, hi, sizeChars, overlapChars) && p.emitted <= q.emitted
  {
    if p.count + |it.text| > sizeChars && |p.parts| > 0 {
      FlushOk(p, lo, hi, sizeChars, overlapChars);
      ReseedOk(Flush(p), it, lo, hi, sizeChars, overlapChars);
    }
  }

  lemma ReseedOk(q: Packer, it: Item, lo: int, hi: int, sizeChars: int, overlapChars: int)
    requires PiecesOk(q.emitted, lo, sizeChars, overlapChars) && BufferOk(q, lo, hi, sizeChars, overlapChars)
    requires q.parts == [] && hi < it.startLine
    ensures var r := Reseed(q, it, lo, overlapChars);
      var r' := if |r.parts| == 0 then r.(startLine := it.startLine) else r;
      Ready(r', it, lo, hi, sizeChars, overlapChars) && r.emitted == q.emitted
  {
    if overlapChars > 0 && |q.emitted| > 0 {
      var prev := q.emitted[|q.emitted| - 1];
      var seed := OverlapSeed(PieceText(prev), overlapChars);
      assert PieceOk(prev, lo, sizeChars);
      if !IsBlank(seed) {
        assert SumLen([seed]) == |seed| by {
          assert [seed][..0] == [];
        }
      }
    }
  }

  /** One loop iteration keeps the invariants and only appends pieces. */
  lemma StepOk(p: Packer, it: Item, lo: int, hi: int, sizeChars: int, overlapChars: int)
    requires PiecesOk(p.emitted, lo, sizeChars, overlapChars) && BufferOk(p, lo, hi, sizeChars, overlapChars)
    requires hi < it.startLine <= it.endLine && lo <= it.startLine
    ensures var r := Step(p, it, lo, sizeChars, overlapChars);
      PiecesOk(r.emitted, lo, sizeChars, overlapChars) && BufferOk(r, lo, it.endLine, sizeChars, overlapChars)
      && p.emitted <= r.emitted
  {
    if Oversized(it, sizeChars) {
      OversizedStepOk(p, it, lo, hi, sizeChars, overlapChars);
    } else {
      PrepareOk(p, it, lo, hi, sizeChars, overlapChars);
      AppendOk(Prepare(p, it, lo, sizeChars, overlapChars), it, lo, hi, sizeChars, overlapChars);
    }
  }

  /** The blocks of a section, as items: each within the section, in
      order, without overlap. */
  ghost predicate ItemsOrdered(items: seq<Item>, lo: int) {
    && (forall k :: 0 <= k < |items| ==> lo <= items[k].startLine <= items[k].endLine)
    && (forall i, j :: 0 <= i < j < |items| ==> items[i].endLine < items[j].startLine)
  }

  /** The last line processed after the items, or `lo - 1` before any. */
  function LastEnd(items: seq<Item>, lo: int): int {
    if |items| == 0 then lo - 1 else items[|items| - 1].endLine
  }

  lemma {:induction false} RunOk(items: seq<Item>, lo: int, sizeChars: int, overlapChars: int)
    requires ItemsOrdered(items, lo)
    ensures var p := Run(items, lo, sizeChars, overlapChars);
      PiecesOk(p.emitted, lo, sizeChars, overlapChars) && BufferOk(p, lo, LastEnd(items, lo), sizeChars, overlapChars)
    decreases |items|
  {
    if |items| > 0 {
      var init := items[..|items| - 1];
      assert ItemsOrdered(init, lo);
      RunOk(init, lo, sizeChars, overlapChars);
      StepOk(Run(init, lo, sizeChars, overlapChars), items[|items| - 1], lo, LastEnd(init, lo), sizeChars, overlapChars);
    }
  }

  /** The item's text is a part of the piece, whose lines include the
      item's. */
  ghost predicate Holds(pc: Piece, it: Item) {
    it.text in pc.parts && pc.startLine <= it.startLine && it.endLine <= pc.endLine
  }

  /** The item is held by an emitted piece or by the buffer. */
  ghost predicate Covered(p: Packer, it: Item) {
    || (exists j :: 0 <= j < |p.emitted| && Holds(p.emitted[j], it))
    || (it.text in p.parts && p.startLine <= it.startLine && it.endLine <= p.endLine)
  }

  /** What the buffer holds survives a flush. */
  lemma FlushCovers(p: Packer, it: Item)
    requires Covered(p, it) && !IsBlank(it.text)
    ensures exists j :: 0 <= j < |Flush(p).emitted| && Holds(Flush(p).emitted[j], it)
  {
    var q := Flush(p);
    if exists j :: 0 <= j < |p.emitted| && Holds(p.emitted[j], it) {
      var j :| 0 <= j < |p.emitted| && Holds(p.emitted[j], it);
      assert q.emitted[j] == p.emitted[j];
    } else {
      var k :| 0 <= k < |p.parts| && p.parts[k] == it.text;
      JoinBlank(p.parts, "\n", k);
      assert q.emitted[|p.emitted|] == Piece(p.parts, p.seeded, p.startLine, p.endLine);
    }
  }

  /** An emitted piece stays emitted. */
  lemma CoveredExtends(p: Packer, q: Packer, it: Item)
    requires exists j :: 0 <= j < |p.emitted| && Holds(p.emitted[j], it)
    requires p.emitted <= q.emitted
    ensures exists j :: 0 <= j < |q.emitted| && Holds(q.emitted[j], it)
  {
    var j :| 0 <= j < |p.emitted| && Holds(p.emitted[j], it);
    assert q.emitted[j] == p.emitted[j];
  }

  /** A block already covered stays covered by the next iteration. */
  lemma StepCoversOld(p: Packer, it: Item, prior: Item, lo: int, hi: int, sizeChars: int, overlapChars: int)
    requires PiecesOk(p.emitted, lo, sizeChars, overlapChars) && BufferOk(p, lo, hi, sizeChars, overlapChars)
    requires hi < it.startLine <= it.endLine && lo <= it.startLine
    requires Covered(p, prior) && !IsBlank(prior.text)
    ensures Covered(Step(p, it, lo, sizeChars, overlapChars), prior)
  {
    StepOk(p, it, lo, hi, sizeChars, overlapChars);
    var r := Step(p, it, lo, sizeChars, overlapChars);
    if Oversized(it, sizeChars) || (p.count + |it.text| > sizeChars && |p.parts| > 0) {
      FlushOk(p, lo, hi, sizeChars, overlapChars);
      FlushCovers(p, prior);
      if Oversized(it, sizeChars) {
        OversizedStepOk(p, it, lo, hi, sizeChars, overlapChars);
        var q := Flush(p);
        var q2 := q.(parts := [it.text], seeded := false, count := |it.text|, startLine := it.startLine, endLine := it.endLine);
        assert q.emitted <= Flush(q2).emitted;
      } else {
        PrepareOk(p, it, lo, hi, sizeChars, overlapChars);
        ReseedOk(Flush(p), it, lo, hi, sizeChars, overlapChars);
      }
      CoveredExtends(Flush(p), r, prior);
    } else if exists j :: 0 <= j < |p.emitted| && Holds(p.emitted[j], prior) {
      CoveredExtends(p, r, prior);
    } else {
      assert Prepare(p, it, lo, sizeChars, overlapChars) == p;
      assert prior.text in r.parts;
    }
  }

  /** The block of this iteration is covered once it is processed. */
  lemma StepCoversNew(p: Packer, it: Item, lo: int, hi: int, sizeChars: int, overlapChars: int)
    requires PiecesOk(p.emitted, lo, sizeChars, overlapChars) && BufferOk(p, lo, hi, sizeChars, overlapChars)
    requires hi < it.startLine <= it.endLine && lo <= it.startLine && !IsBlank(it.text)
    ensures Covered(Step(p, it, lo, sizeChars, overlapChars), it)
  {
    var r := Step(p, it, lo, sizeChars, overlapChars);
    if Oversized(it, sizeChars) {
      OversizedStepOk(p, it, lo, hi, sizeChars, overlapChars);
      assert Holds(r.emitted[|r.emitted| - 1], it);
    } else {
      PrepareOk(p, it, lo, hi, sizeChars, overlapChars);
      var q := Prepare(p, it, lo, sizeChars, overlapChars);
      assert r.parts[|q.parts|] == it.text;
    }
  }

  lemma {:induction false} RunCovers(items: seq<Item>, lo: int, sizeChars: int, overlapChars: int)
    requires ItemsOrdered(items, lo)
    ensures forall k :: 0 <= k < |items| && !IsBlank(items[k].text) ==> Covered(Run(items, lo, sizeChars, overlapChars), items[k])
    decreases |items|
  {
    if |items| > 0 {
      var init := items[..|items| - 1];
      var it := items[|items| - 1];
      var p := Run(init, lo, sizeChars, overlapChars);
      assert ItemsOrdered(init, lo);
      RunOk(init, lo, sizeChars, overlapChars);
      RunCovers(init, lo, sizeChars, overlapChars);
      forall k | 0 <= k < |items| && !IsBlank(items[k].text)
        ensures Covered(Run(items, lo, sizeChars, overlapChars), items[k])
      {
        if k < |items| - 1 {
          assert items[k] == init[k];
          StepCoversOld(p, it, items[k], lo, LastEnd(init, lo), sizeChars, overlapChars);
        } else {
          StepCoversNew(p, it, lo, LastEnd(init, lo), sizeChars, overlapChars);
        }
      }
    }
  }

  lemma PrefixIn<T>(a: seq<T>, b: seq<T>, x: T)
    requires x in a && a <= b
    ensures x in b
  {
    var j :| 0 <= j < |a| && a[j] == x;
    assert b[j] == x;
  }

  /** An oversized code block ends up emitted on its own. */
  lemma StepOversized(p: Packer, it: Item, lo: int, hi: int, sizeChars: int, overlapChars: int)
    requires PiecesOk(p.emitted, lo, sizeChars, overlapChars) && BufferOk(p, lo, hi, sizeChars, overlapChars)
    requires hi < it.startLine <= it.endLine && lo <= it.startLine
    requires Oversized(it, sizeChars) && !IsBlank(it.text)
    ensures Piece([it.text], false, it.startLine, it.endLine) in Step(p, it, lo, sizeChars, overlapChars).emitted
  {
    OversizedStepOk(p, it, lo, hi, sizeChars, overlapChars);
    var r := Step(p, it, lo, sizeChars, overlapChars);
    assert r.emitted[|r.emitted| - 1] == Piece([it.text], false, it.startLine, it.endLine);
  }

  lemma {:induction false} RunOversized(items: seq<Item>, lo: int, sizeChars: int, overlapChars: int)
    requires ItemsOrdered(items, lo)
    ensures forall k :: 0 <= k < |items| && Oversized(items[k], sizeChars) && !IsBlank(items[k].text) ==>
      Piece([items[k].text], false, items[k].startLine, items[k].endLine) in Run(items, lo, sizeChars, overlapChars).emitted
    decreases |items|
  {
    if |items| > 0 {
      var init := items[..|items| - 1];
      var it := items[|items| - 1];
      var p := Run(init, lo, sizeChars, overlapChars);
      var r := Run(items, lo, sizeChars, overlapChars);
      assert ItemsOrdered(init, lo);
      RunOk(init, lo, sizeChars, overlapChars);
      RunOversized(init, lo, sizeChars, overlapChars);
      StepOk(p, it, lo, LastEnd(init, lo), sizeChars, overlapChars);
      if Oversized(it, sizeChars) && !IsBlank(it.text) {
        StepOversized(p, it, lo, LastEnd(init, lo), sizeChars, overlapChars);
      }
      OversizedSnoc(items, sizeChars, p.emitted, r.emitted);
    }
  }

  /** The induction step of `RunOversized`: the pieces already emitted stay,
      and the new item's piece, if any, is among the later ones. */
  lemma OversizedSnoc(items: seq<Item>, sizeChars: int, a: seq<Piece>, b: seq<Piece>)
    requires |items| > 0 && a <= b
    requires var init := items[..|items| - 1];
      forall k :: 0 <= k < |init| && Oversized(init[k], sizeChars) && !IsBlank(init[k].text) ==>
        Piece([init[k].text], false, init[k].startLine, init[k].endLine) in a
    requires var it := items[|items| - 1];
      Oversized(it, sizeChars) && !IsBlank(it.text) ==> Piece([it.text], false, it.startLine, it.endLine) in b
    ensures forall k :: 0 <= k < |items| && Oversized(items[k], sizeChars) && !IsBlank(items[k].text) ==>
      Piece([items[k].text], false, items[k].startLine, items[k].endLine) in b
  {
    var init := items[..|items| - 1];
    forall k | 0 <= k < |items| && Oversized(items[k], sizeChars) && !IsBlank(items[k].text)
      ensures Piece([items[k].text], false, items[k].startLine, items[k].endLine) in b
    {
      if k < |init| {
        assert items[k] == init[k];
        PrefixIn(a, b, Piece([init[k].text], false, init[k].startLine, init[k].endLine));
      }
    }
  }

  /** The pieces of a section: well formed, with strictly increasing end
      lines within the blocks' range. */
  lemma PackOk(items: seq<Item>, lo: int, sizeChars: int, overlapChars: int)
    requires ItemsOrdered(items, lo)
    ensures var ps := Pack(items, lo, sizeChars, overlapChars);
      && PiecesOk(ps, lo, sizeChars, overlapChars)
      && (forall j :: 0 <= j < |ps| ==> ps[j].endLine <= LastEnd(items, lo))
  {
    RunOk(items, lo, sizeChars, overlapChars);
    FlushOk(Run(items, lo, sizeChars, overlapChars), lo, LastEnd(items, lo), sizeChars, overlapChars);
  }

  /** Every non-blank block is held by a piece of its section. */
  lemma PackCovers(items: seq<Item>, lo: int, sizeChars: int, overlapChars: int)
    requires ItemsOrdered(items, lo)
    ensures var ps := Pack(items, lo, sizeChars, overlapChars);
      forall k :: 0 <= k < |items| && !IsBlank(items[k].text) ==> exists j :: 0 <= j < |ps| && Holds(ps[j], items[k])
  {
    var p := Run(items, lo, sizeChars, overlapChars);
    var ps := Pack(items, lo, sizeChars, overlapChars);
    assert ps == Flush(p).emitted;
    RunCovers(items, lo, sizeChars, overlapChars);
    forall k | 0 <= k < |items| && !IsBlank(items[k].text)
      ensures exists j :: 0 <= j < |ps| && Holds(ps[j], items[k])
    {
      FlushCovers(p, items[k]);
    }
  }

  /** Every non-blank oversized code block is a piece of its own. */
  lemma PackOversized(items: seq<Item>, lo: int, sizeChars: int, overlapChars: int)
    requires ItemsOrdered(items, lo)
    ensures var ps := Pack(items, lo, sizeChars, overlapChars);
      forall k :: 0 <= k < |items| && Oversized(items[k], sizeChars) && !IsBlank(items[k].text) ==>
        Piece([items[k].text], false, items[k].startLine, items[k].endLine) in ps
  {
    var p := Run(items, lo, sizeChars, overlapChars);
    RunOversized(items, lo, sizeChars, overlapChars);
    assert p.emitted <= Flush(p).emitted;
    forall k | 0 <= k < |items| && Oversized(items[k], sizeChars) && !IsBlank(items[k].text)
      ensures Piece([items[k].text], false, items[k].startLine, items[k].endLine) in Flush(p).emitted
    {
      PrefixIn(p.emitted, Flush(p).emitted, Piece([items[k].text], false, items[k].startLine, items[k].endLine));
    }
  }

  // ---------------------------------------------------------------------------
  // Sections into chunks
  // ---------------------------------------------------------------------------

  /** Blocks in tiling order start after every earlier block ends. */
  lemma {:induction false} BlockTilesOrdered(hi: nat, blocks: seq<Block>, from: nat)
    requires BlockTiles(hi, blocks, from)
    ensures forall k :: 0 <= k < |blocks| ==> from <= blocks[k].startLine
    ensures forall i, j :: 0 <= i < j < |blocks| ==> blocks[i].endLine <= blocks[j].startLine
    decreases |blocks|
  {
    if |blocks| > 0 {
      var rest := blocks[1..];
      assert BlockTiles(hi, rest, blocks[0].endLine) by {
        assert forall k :: 0 <= k < |rest| ==> rest[k] == blocks[k + 1];
      }
      BlockTilesOrdered(hi, rest, blocks[0].endLine);
      assert forall k :: 0 < k < |blocks| ==> blocks[k] == rest[k - 1];
    }
  }

  /** The section's blocks as the packing loop sees them. */
  function SectionItems(lines: seq<string>, s: Section): (items: seq<Item>)
    requires s.startLine <= s.endLine <= |lines|
    ensures ItemsOrdered(items, s.startLine)
    ensures forall k :: 0 <= k < |items| ==> items[k].endLine < s.endLine
  {
    var bs := SectionBlocks(lines, s);
    BlockTilesOrdered(s.endLine, bs, s.startLine);
    seq(|bs|, k requires 0 <= k < |bs| => ItemOf(lines, bs[k]))
  }

  function ChunkOf(pc: Piece, heading: Option<string>): Chunk {
    var text := PieceText(pc);
    Chunk(text, pc.startLine, pc.endLine, heading, EstimateTokens(text))
  }

  /** `_split_section_into_chunks` for one section, with the size and
      overlap already converted to characters. */
  function SectionChunks(lines: seq<string>, s: Section, sizeChars: int, overlapChars: int): seq<Chunk>
    requires s.startLine <= s.endLine <= |lines|
  {
    var ps := Pack(SectionItems(lines, s), s.startLine, sizeChars, overlapChars);
    seq(|ps|, j requires 0 <= j < |ps| => ChunkOf(ps[j], s.heading))
  }

  /** What every chunk of the document satisfies: non-blank text, its token
      estimate, a line range inside the document, and the heading in force
      at both ends of that range. */
  ghost predicate ChunkOk(lines: seq<string>, c: Chunk) {
    && !IsBlank(c.text) && c.tokenCount == EstimateTokens(c.text)
    && 0 <= c.startLine <= c.endLine < |lines|
    && c.heading == HeadingAt(lines, c.startLine) && c.heading == HeadingAt(lines, c.endLine)
  }

  /** The chunks of one section stay inside it, carry its heading and have
      strictly increasing end lines. */
  lemma SectionChunksOk(lines: seq<string>, s: Section, sizeChars: int, overlapChars: int)
    requires WellHeaded(lines, s)
    ensures var cs := SectionChunks(lines, s, sizeChars, overlapChars);
      && (forall j :: 0 <= j < |cs| ==> ChunkOk(lines, cs[j]) && s.startLine <= cs[j].startLine && cs[j].endLine < s.endLine)
      && (forall i, j :: 0 <= i < j < |cs| ==> cs[i].endLine < cs[j].endLine)
  {
    var items := SectionItems(lines, s);
    var ps := Pack(items, s.startLine, sizeChars, overlapChars);
    var cs := SectionChunks(lines, s, sizeChars, overlapChars);
    PackOk(items, s.startLine, sizeChars, overlapChars);
    assert LastEnd(items, s.startLine) < s.endLine;
    forall j | 0 <= j < |cs|
      ensures ChunkOk(lines, cs[j]) && s.startLine <= cs[j].startLine && cs[j].endLine < s.endLine
    {
      assert PieceOk(ps[j], s.startLine, sizeChars);
      HeadingAtSection(lines, s, cs[j].startLine);
      HeadingAtSection(lines, s, cs[j].endLine);
    }
  }

  /** `sub` is a substring of `s`. */
  ghost predicate Occurs(sub: string, s: string) {
    exists a, b :: s == a + sub + b
  }

  lemma OccursTrans(x: string, y: string, z: string)
    requires Occurs(x, y) && Occurs(y, z)
    ensures Occurs(x, z)
  {
    var a1, b1 :| y == a1 + x + b1;
    var a2, b2 :| z == a2 + y + b2;
    assert z == (a2 + a1) + x + (b1 + b2);
  }

  /** A block's text contains each of its lines, and is non-blank when one
      of them is. */
  lemma ItemHasLine(lines: seq<string>, b: Block, i: nat)
    requires b.startLine <= i < b.endLine <= |lines| && !IsBlank(lines[i])
    ensures Occurs(lines[i], ItemOf(lines, b).text) && !IsBlank(ItemOf(lines, b).text)
  {
    var blockLines := lines[b.startLine..b.endLine];
    assert blockLines[i - b.startLine] == lines[i];
    JoinContains(blockLines, "\n", i - b.startLine);
    JoinBlank(blockLines, "\n", i - b.startLine);
  }

  /** A piece's text contains the text of every item it holds. */
  lemma PieceHasItem(pc: Piece, it: Item)
    requires Holds(pc, it)
    ensures Occurs(it.text, PieceText(pc))
  {
    var m :| 0 <= m < |pc.parts| && pc.parts[m] == it.text;
    JoinContains(pc.parts, "\n", m);
  }

  /** The index of the block holding line `i`. */
  lemma {:induction false} BlockOf(hi: nat, blocks: seq<Block>, from: nat, i: nat) returns (k: nat)
    requires BlockTiles(hi, blocks, from) && from <= i < hi
    ensures k < |blocks| && blocks[k].startLine <= i < blocks[k].endLine
    decreases |blocks|
  {
    if i < blocks[0].endLine {
      k := 0;
    } else {
      var rest := blocks[1..];
      assert BlockTiles(hi, rest, blocks[0].endLine) by {
        assert forall k :: 0 <= k < |rest| ==> rest[k] == blocks[k + 1];
      }
      var k' := BlockOf(hi, rest, blocks[0].endLine, i);
      k := k' + 1;
    }
  }

  /** The item of the block holding a non-blank line of a section is a
      non-blank item containing that line. */
  lemma SectionItemOf(lines: seq<string>, s: Section, i: nat) returns (k: nat)
    requires s.startLine <= i < s.endLine <= |lines| && !IsBlank(lines[i])
    ensures var items := SectionItems(lines, s);
      && k < |items| && items[k].startLine <= i <= items[k].endLine
      && Occurs(lines[i], items[k].text) && !IsBlank(items[k].text)
  {
    var blocks := SectionBlocks(lines, s);
    k := BlockOf(s.endLine, blocks, s.startLine, i);
    ItemHasLine(lines, blocks[k], i);
  }

  /** A section's chunks cover each of its non-blank lines: some chunk's
      line range contains the line and its text contains the line's text. */
  lemma SectionChunksCover(lines: seq<string>, s: Section, sizeChars: int, overlapChars: int, i: nat)
    requires s.startLine <= i < s.endLine <= |lines| && !IsBlank(lines[i])
    ensures exists c :: c in SectionChunks(lines, s, sizeChars, overlapChars) && c.startLine <= i <= c.endLine && Occurs(lines[i], c.text)
  {
    var items := SectionItems(lines, s);
    var ps := Pack(items, s.startLine, sizeChars, overlapChars);
    var k := SectionItemOf(lines, s, i);
    PackCovers(items, s.startLine, sizeChars, overlapChars);
    var j :| 0 <= j < |ps| && Holds(ps[j], items[k]);
    PieceHasItem(ps[j], items[k]);
    OccursTrans(lines[i], items[k].text, PieceText(ps[j]));
    var cs := SectionChunks(lines, s, sizeChars, overlapChars);
    assert cs[j] == ChunkOf(ps[j], s.heading);
  }

  /** A code block's text is not blank, since its first line is a fence. */
  lemma CodeItemNotBlank(lines: seq<string>, hi: nat, b: Block)
    requires BlockShape(lines, hi, b) && b.isCode
    ensures !IsBlank(ItemOf(lines, b).text)
  {
    FenceNotBlank(lines[b.startLine]);
    ItemHasLine(lines, b, b.startLine);
  }

  /** An oversized code block of a section becomes a chunk of its own whose
      text is exactly the block's lines. */
  lemma SectionChunksOversized(lines: seq<string>, s: Section, sizeChars: int, overlapChars: int, b: Block)
    requires s.startLine <= s.endLine <= |lines| && b in SectionBlocks(lines, s)
    requires b.isCode && |ItemOf(lines, b).text| > sizeChars
    ensures var t := ItemOf(lines, b).text;
      Chunk(t, b.startLine, b.endLine - 1, s.heading, EstimateTokens(t)) in SectionChunks(lines, s, sizeChars, overlapChars)
  {
    var items := SectionItems(lines, s);
    var k := BlockItem(lines, s, b);
    var t := items[k].text;
    PackOversized(items, s.startLine, sizeChars, overlapChars);
    var pc := Piece([t], false, b.startLine, b.endLine - 1);
    assert PieceText(pc) == t;
    PieceChunk(lines, s, sizeChars, overlapChars, pc);
  }

  /** The item a code block of a section becomes, and where it sits. */
  lemma BlockItem(lines: seq<string>, s: Section, b: Block) returns (k: nat)
    requires s.startLine <= s.endLine <= |lines| && b in SectionBlocks(lines, s) && b.isCode
    ensures k < |SectionItems(lines, s)| && SectionItems(lines, s)[k] == ItemOf(lines, b)
    ensures ItemOf(lines, b).startLine == b.startLine && ItemOf(lines, b).endLine == b.endLine - 1
    ensures !IsBlank(ItemOf(lines, b).text)
  {
    var blocks := SectionBlocks(lines, s);
    k :| 0 <= k < |blocks| && blocks[k] == b;
    CodeItemNotBlank(lines, s.endLine, b);
  }

  /** Every piece the packing emits is a chunk of the section. */
  lemma PieceChunk(lines: seq<string>, s: Section, sizeChars: int, overlapChars: int, pc: Piece)
    requires s.startLine <= s.endLine <= |lines|
    requires pc in Pack(SectionItems(lines, s), s.startLine, sizeChars, overlapChars)
    ensures ChunkOf(pc, s.heading) in SectionChunks(lines, s, sizeChars, overlapChars)
  {
    var ps := Pack(SectionItems(lines, s), s.startLine, sizeChars, overlapChars);
    var j :| 0 <= j < |ps| && ps[j] == pc;
    assert SectionChunks(lines, s, sizeChars, overlapChars)[j] == ChunkOf(pc, s.heading);
  }

  // ---------------------------------------------------------------------------
  // The document
  // ---------------------------------------------------------------------------

  /** The concatenation of per-section chunk lists, in order. */
  function Flatten(parts: seq<seq<Chunk>>): seq<Chunk> {
    if |parts| == 0 then [] else parts[0] + Flatten(parts[1..])
  }

  /** The chunk list of each section, section by section. */
  function PerSection(lines: seq<string>, secs: seq<Section>, sizeChars: int, overlapChars: int): (parts: seq<seq<Chunk>>)
    requires forall k :: 0 <= k < |secs| ==> secs[k].startLine <= secs[k].endLine <= |lines|
    ensures |parts| == |secs|
  {
    seq(|secs|, k requires 0 <= k < |secs| => SectionChunks(lines, secs[k], sizeChars, overlapChars))
  }

  /** `chunk_markdown(text, chunk_size=..., overlap=...)`: a blank document
      has no chunks; otherwise the chunks of each section of its lines, in
      order, with the token budgets turned into characters. */
  function ChunkMarkdown(text: string, chunkSize: int, overlap: int): seq<Chunk> {
    if IsBlank(text) then []
    else
      var lines := Split(text, '\n');
      Flatten(PerSection(lines, SplitIntoSections(lines), chunkSize * CharsPerToken, overlap * CharsPerToken))
  }

  /** The chunks lie inside the section's lines, with strictly increasing
      end lines. */
  ghost predicate Inside(s: Section, cs: seq<Chunk>) {
    && (forall j :: 0 <= j < |cs| ==> s.startLine <= cs[j].startLine <= cs[j].endLine < s.endLine)
    && (forall i, j :: 0 <= i < j < |cs| ==> cs[i].endLine < cs[j].endLine)
  }

  /** Chunk lists that stay inside consecutive sections flatten into one
      list with strictly increasing end lines. */
  lemma {:induction false} FlattenOrdered(n: nat, secs: seq<Section>, parts: seq<seq<Chunk>>, from: nat)
    requires SectionTiles(n, secs, from) && |parts| == |secs|
    requires forall k :: 0 <= k < |secs| ==> Inside(secs[k], parts[k])
    ensures forall j :: 0 <= j < |Flatten(parts)| ==> from <= Flatten(parts)[j].startLine <= Flatten(parts)[j].endLine
    ensures forall i, j :: 0 <= i < j < |Flatten(parts)| ==> Flatten(parts)[i].endLine < Flatten(parts)[j].endLine
    decreases |parts|
  {
    if |parts| > 0 {
      var head, rest := parts[0], Flatten(parts[1..]);
      SectionTilesTail(n, secs, from);
      assert forall k :: 0 <= k < |secs[1..]| ==> secs[1..][k] == secs[k + 1] && parts[1..][k] == parts[k + 1];
      FlattenOrdered(n, secs[1..], parts[1..], secs[0].endLine);
      assert Inside(secs[0], head);
      var cs := head + rest;
      forall j | 0 <= j < |cs|
        ensures from <= cs[j].startLine <= cs[j].endLine
      {
        if j >= |head| {
          assert cs[j] == rest[j - |head|];
          assert secs[0].endLine <= rest[j - |head|].startLine;
          assert from <= secs[0].endLine;
        } else {
          assert cs[j] == head[j];
          assert secs[0].startLine <= head[j].startLine;
          assert from == secs[0].startLine;
        }
      }
      forall i, j | 0 <= i < j < |cs|
        ensures cs[i].endLine < cs[j].endLine
      {
        if i >= |head| {
          assert cs[i] == rest[i - |head|] && cs[j] == rest[j - |head|];
        } else if j >= |head| {
          assert cs[i] == head[i] && cs[j] == rest[j - |head|];
          assert head[i].endLine < secs[0].endLine <= rest[j - |head|].startLine;
        } else {
          assert cs[i] == head[i] && cs[j] == head[j];
        }
      }
      assert Flatten(parts) == cs;
    }
  }

  /** Where an element of the flattened list comes from. */
  lemma {:induction false} FlattenAt(parts: seq<seq<Chunk>>, j: nat) returns (k: nat, m: nat)
    requires j < |Flatten(parts)|
    ensures k < |parts| && m < |parts[k]| && Flatten(parts)[j] == parts[k][m]
    decreases |parts|
  {
    if j < |parts[0]| {
      k, m := 0, j;
    } else {
      var k', m' := FlattenAt(parts[1..], j - |parts[0]|);
      k, m := k' + 1, m';
    }
  }

  /** Every chunk of every part appears in the flattened list. */
  lemma {:induction false} FlattenHas(parts: seq<seq<Chunk>>, k: nat, c: Chunk)
    requires k < |parts| && c in parts[k]
    ensures c in Flatten(parts)
    decreases k
  {
    if k > 0 {
      FlattenHas(parts[1..], k - 1, c);
    }
  }

  /** The index of the section holding line `i`. */
  lemma {:induction false} SectionOf(n: nat, secs: seq<Section>, from: nat, i: nat) returns (k: nat)
    requires SectionTiles(n, secs, from) && from <= i < n
    ensures k < |secs| && secs[k].startLine <= i < secs[k].endLine
    decreases |secs|
  {
    if i < secs[0].endLine {
      k := 0;
    } else {
      SectionTilesTail(n, secs, from);
      var k' := SectionOf(n, secs[1..], secs[0].endLine, i);
      k := k' + 1;
    }
  }

  /** Every chunk of a document has non-blank text with its token estimate,
      lies within the document's lines and carries the heading in force
      there. */
  lemma ChunkMarkdownOk(text: string, chunkSize: int, overlap: int)
    ensures var lines := Split(text, '\n');
      var r := ChunkMarkdown(text, chunkSize, overlap);
      forall j :: 0 <= j < |r| ==> ChunkOk(lines, r[j])
  {
    if !IsBlank(text) {
      var lines := Split(text, '\n');
      var secs := SplitIntoSections(lines);
      var sizeChars, overlapChars := chunkSize * CharsPerToken, overlap * CharsPerToken;
      var parts := PerSection(lines, secs, sizeChars, overlapChars);
      forall j | 0 <= j < |Flatten(parts)|
        ensures ChunkOk(lines, Flatten(parts)[j])
      {
        var k, m := FlattenAt(parts, j);
        SectionChunksOk(lines, secs[k], sizeChars, overlapChars);
      }
    }
  }

  /** The chunks of a document come in document order: their end lines
      strictly increase. */
  lemma ChunkMarkdownOrdered(text: string, chunkSize: int, overlap: int)
    ensures var r := ChunkMarkdown(text, chunkSize, overlap);
      forall i, j :: 0 <= i < j < |r| ==> r[i].endLine < r[j].endLine
  {
    if !IsBlank(text) {
      var lines := Split(text, '\n');
      var secs := SplitIntoSections(lines);
      var sizeChars, overlapChars := chunkSize * CharsPerToken, overlap * CharsPerToken;
      var parts := PerSection(lines, secs, sizeChars, overlapChars);
      forall k | 0 <= k < |secs|
        ensures Inside(secs[k], parts[k])
      {
        SectionChunksOk(lines, secs[k], sizeChars, overlapChars);
      }
      FlattenOrdered(|lines|, secs, parts, 0);
    }
  }

  /** No non-blank line of a document is lost: some chunk's line range
      contains it and that chunk's text contains the line. */
  lemma ChunkMarkdownCovers(text: string, chunkSize: int, overlap: int)
    ensures var lines := Split(text, '\n');
      var r := ChunkMarkdown(text, chunkSize, overlap);
      forall i :: 0 <= i < |lines| && !IsBlank(lines[i]) ==>
        exists c :: c in r && c.startLine <= i <= c.endLine && Occurs(lines[i], c.text)
  {
    var lines := Split(text, '\n');
    if IsBlank(text) {
      SplitBlank(text, '\n');
    } else {
      var secs := SplitIntoSections(lines);
      var sizeChars, overlapChars := chunkSize * CharsPerToken, overlap * CharsPerToken;
      var parts := PerSection(lines, secs, sizeChars, overlapChars);
      forall i | 0 <= i < |lines| && !IsBlank(lines[i])
        ensures exists c :: c in Flatten(parts) && c.startLine <= i <= c.endLine && Occurs(lines[i], c.text)
      {
        var k := SectionOf(|lines|, secs, 0, i);
        SectionChunksCover(lines, secs[k], sizeChars, overlapChars, i);
        var c: Chunk :| c in parts[k] && c.startLine <= i <= c.endLine && Occurs(lines[i], c.text);
        FlattenHas(parts, k, c);
      }
    }
  }

  /** A code block longer than the chunk size is never split or merged: it
      is one chunk whose text is exactly the block, under its section's
      heading. */
  lemma ChunkMarkdownOversized(text: string, chunkSize: int, overlap: int, k: nat, b: Block)
    requires !IsBlank(text)
    requires var lines := Split(text, '\n');
      var secs := SplitIntoSections(lines);
      && k < |secs| && b in SectionBlocks(lines, secs[k])
      && b.isCode && |ItemOf(lines, b).text| > chunkSize * CharsPerToken
    ensures var lines := Split(text, '\n');
      var secs := SplitIntoSections(lines);
      var t := ItemOf(lines, b).text;
      Chunk(t, b.startLine, b.endLine - 1, secs[k].heading, EstimateTokens(t)) in ChunkMarkdown(text, chunkSize, overlap)
  {
    var lines := Split(text, '\n');
    var secs := SplitIntoSections(lines);
    var t := ItemOf(lines, b).text;
    var parts := PerSection(lines, secs, chunkSize * CharsPerToken, overlap * CharsPerToken);
    SectionChunksOversized(lines, secs[k], chunkSize * CharsPerToken, overlap * CharsPerToken, b);
    FlattenHas(parts, k, Chunk(t, b.startLine, b.endLine - 1, secs[k].heading, EstimateTokens(t)));
  }

  /** The chunk list is empty exactly when the document is blank. */
  lemma ChunkMarkdownEmpty(text: string, chunkSize: int, overlap: int)
    ensures ChunkMarkdown(text, chunkSize, overlap) == [] <==> IsBlank(text)
  {
    if !IsBlank(text) {
      var lines := Split(text, '\n');
      var i := SplitNonBlank(text, '\n');
      ChunkMarkdownCovers(text, chunkSize, overlap);
      var c :| c in ChunkMarkdown(text, chunkSize, overlap) && c.startLine <= i <= c.endLine && Occurs(lines[i], c.text);
    }
  }
}

// parseJsDoc: the block state machine over the lines of a comment.
module JsDoc {
  import opened Splitting
  import opened Whitespace

  predicate IsTagLine(line: string) {
    TrimStart(line) != "" && TrimStart(line)[0] == '@'
  }

  predicate IsBullet(line: string) {
    |line| > 1 && line[0] == '-' && IsSpace(line[1])
  }

  predicate IsBlank(line: string) {
    Trim(line) == ""
  }

  // Joins with blanks, collapses white space and trims.
  function JoinLines(parts: seq<string>): string {
    Trim(Collapse(JoinWith(parts, " ")))
  }

  // What the kinds of line look like.
  lemma LinesMean(line: string)
    ensures IsTagLine(line) <==> exists blank, rest :: AllSpace(blank) && line == blank + "@" + rest
    ensures IsBullet(line) <==> exists c, rest :: IsSpace(c) && line == "-" + [c] + rest
    ensures IsBlank(line) <==> AllSpace(line)
  {
    TrimsToNothing(line);
    TagLineMeans(line);
    if IsBullet(line) { assert line == "-" + [line[1]] + line[2..]; }
  }

  lemma TagLineMeans(line: string)
    ensures IsTagLine(line) <==> exists blank, rest :: AllSpace(blank) && line == blank + "@" + rest
  {
    if IsTagLine(line) {
      var blank := CutOff(line);
      assert line == blank + "@" + TrimStart(line)[1..];
    }
    if blank, rest :| AllSpace(blank) && line == blank + "@" + rest {
      TrimsOff(blank, "@" + rest);
      assert blank + ("@" + rest) == line;
    }
  }

  lemma {:induction false} TrimsOff(blank: string, rest: string)
    requires AllSpace(blank) && rest != "" && !IsSpace(rest[0])
    ensures TrimStart(blank + rest) == rest
  {
    if blank == "" {
      assert blank + rest == rest;
    } else {
      assert blank[0] in blank && (blank + rest)[1..] == blank[1..] + rest;
      assert forall c :: c in blank[1..] ==> c in blank;
      TrimsOff(blank[1..], rest);
    }
  }

  // Joined lines are their words with single blanks between them.
  lemma JoinedText(parts: seq<string>)
    ensures JoinLines(parts) == JoinWith(WordsOf(parts), " ")
  {
    CollapsedText(JoinWith(parts, " "));
    WordsJoin(parts, " ");
  }

  // Where prose ends: the first line with a block tag.
  function ProseEnd(lines: seq<string>): (n: nat)
    ensures n <= |lines| && (forall i :: 0 <= i < n ==> !IsTagLine(lines[i])) && (n < |lines| ==> IsTagLine(lines[n]))
  {
    if lines == [] || IsTagLine(lines[0]) then 0 else 1 + ProseEnd(lines[1..])
  }

  // ---- What the blocks of a text are ----

  function FirstBullet(lines: seq<string>): (n: nat)
    ensures n <= |lines|
  {
    if lines == [] || IsBullet(lines[0]) then 0 else 1 + FirstBullet(lines[1..])
  }

  function FirstBlank(lines: seq<string>): (n: nat)
    ensures n <= |lines|
  {
    if lines == [] || IsBlank(lines[0]) then 0 else 1 + FirstBlank(lines[1..])
  }

  function ParagraphBlock(lines: seq<string>): seq<string> {
    if lines == [] then [] else [JoinLines(lines)]
  }

  // An item is a bullet with all lines up to the next one.
  function ItemTexts(lines: seq<string>): seq<string> {
    if lines == [] then []
    else
      var n := 1 + FirstBullet(lines[1..]);
      [JoinLines(lines[..n])] + ItemTexts(lines[n..])
  }

  // All items of a list make one block.
  function ListBlock(items: seq<string>): seq<string> {
    if items == [] then [] else [JoinWith(items, "\n")]
  }

  // Lines without a blank one between them: a paragraph up to the first bullet, then a list.
  function RunBlocks(run: seq<string>): seq<string> {
    var n := FirstBullet(run);
    ParagraphBlock(run[..n]) + ListBlock(ItemTexts(run[n..]))
  }

  // The blocks of all runs, which blank lines separate.
  function Blocks(lines: seq<string>): seq<string>
    decreases |lines|
  {
    if lines == [] then []
    else if IsBlank(lines[0]) then Blocks(lines[1..])
    else var n := FirstBlank(lines); RunBlocks(lines[..n]) + Blocks(lines[n..])
  }

  lemma BlocksOfRun(lines: seq<string>)
    ensures Blocks(lines) == RunBlocks(lines[..FirstBlank(lines)]) + Blocks(lines[FirstBlank(lines)..])
  {
    if FirstBlank(lines) == 0 {
      assert lines[..0] == [] && lines[0..] == lines;
      assert RunBlocks([]) == [];
    }
  }

  lemma {:induction false} BulletBehind(lines: seq<string>, rest: seq<string>)
    requires forall i :: 0 <= i < |lines| ==> !IsBullet(lines[i])
    ensures FirstBullet(lines + rest) == |lines| + FirstBullet(rest)
  {
    if lines == [] {
      assert lines + rest == rest;
    } else {
      assert (lines + rest)[1..] == lines[1..] + rest;
      BulletBehind(lines[1..], rest);
    }
  }

  // ---- The words of the blocks ----

  lemma JoinLinesWords(parts: seq<string>)
    ensures Words(JoinLines(parts)) == WordsOf(parts)
  {
    var joined := JoinWith(parts, " ");
    WordsJoin(parts, " ");
    WordsCollapse(joined);
    WordsTrim(Collapse(joined));
  }

  lemma WordsOfOne(line: string)
    ensures WordsOf([line]) == Words(line)
  {
    assert [line][1..] == [];
  }

  lemma WordsOfSplit(lines: seq<string>, n: nat)
    requires n <= |lines|
    ensures WordsOf(lines) == WordsOf(lines[..n]) + WordsOf(lines[n..])
  {
    assert lines == lines[..n] + lines[n..];
    WordsOfConcat(lines[..n], lines[n..]);
  }

  lemma {:induction false} ItemWords(lines: seq<string>)
    ensures WordsOf(ItemTexts(lines)) == WordsOf(lines)
    decreases |lines|
  {
    if lines != [] {
      var n := 1 + FirstBullet(lines[1..]);
      ItemWords(lines[n..]);
      FirstItemWords(lines[..n], ItemTexts(lines[n..]));
      WordsOfSplit(lines, n);
      assert ItemTexts(lines) == [JoinLines(lines[..n])] + ItemTexts(lines[n..]);
    }
  }

  lemma FirstItemWords(lines: seq<string>, texts: seq<string>)
    ensures WordsOf([JoinLines(lines)] + texts) == WordsOf(lines) + WordsOf(texts)
  {
    JoinLinesWords(lines);
    WordsOfOne(JoinLines(lines));
    WordsOfConcat([JoinLines(lines)], texts);
  }

  lemma RunWords(run: seq<string>)
    ensures WordsOf(RunBlocks(run)) == WordsOf(run)
  {
    var n := FirstBullet(run);
    WordsOfConcat(ParagraphBlock(run[..n]), ListBlock(ItemTexts(run[n..])));
    ParagraphWords(run[..n]);
    ListWords(ItemTexts(run[n..]));
    ItemWords(run[n..]);
    WordsOfSplit(run, n);
  }

  lemma ParagraphWords(lines: seq<string>)
    ensures WordsOf(ParagraphBlock(lines)) == WordsOf(lines)
  {
    JoinLinesWords(lines);
    WordsOfOne(JoinLines(lines));
  }

  lemma ListWords(items: seq<string>)
    ensures WordsOf(ListBlock(items)) == WordsOf(items)
  {
    WordsJoin(items, "\n");
    WordsOfOne(JoinWith(items, "\n"));
  }

  // The blocks hold the words of the lines, all of them and in order.
  lemma {:induction false} BlocksKeepWords(lines: seq<string>)
    ensures WordsOf(Blocks(lines)) == WordsOf(lines)
    decreases |lines|
  {
    if lines != [] {
      if IsBlank(lines[0]) {
        WordsTrim(lines[0]);
        BlocksKeepWords(lines[1..]);
      } else {
        var n := FirstBlank(lines);
        RunWords(lines[..n]);
        BlocksKeepWords(lines[n..]);
        WordsOfConcat(RunBlocks(lines[..n]), Blocks(lines[n..]));
        WordsOfSplit(lines, n);
      }
    }
  }

  // ---- The state machine ----

  // The blocks of what is pending.
  function PendingBlocks(para: seq<string>, list: seq<string>, item: seq<string>): seq<string> {
    ListBlock(list + ParagraphBlock(item)) + ParagraphBlock(para)
  }

  // A pending paragraph never coexists with a pending list or item; an open item is a bullet with
  // its continuations.
  ghost predicate IsPending(para: seq<string>, list: seq<string>, item: seq<string>) {
    && (para != [] ==> item == []) && (list != [] ==> item != [])
    && (forall i :: 0 <= i < |para| ==> !IsBullet(para[i]))
    && (item != [] ==> IsBullet(item[0])) && (forall i :: 1 <= i < |item| ==> !IsBullet(item[i]))
  }

  // The blocks of what is pending, continued by lines without a blank one.
  ghost function Continued(para: seq<string>, list: seq<string>, item: seq<string>, run: seq<string>): seq<string> {
    if item != [] then ListBlock(list + ItemTexts(item + run)) else RunBlocks(para + run)
  }

  // The blocks that what is pending and the lines still to come will make.
  ghost function Prospect(para: seq<string>, list: seq<string>, item: seq<string>, rest: seq<string>): seq<string> {
    Continued(para, list, item, rest[..FirstBlank(rest)]) + Blocks(rest[FirstBlank(rest)..])
  }

  // An open item ends at the next bullet.
  lemma ItemEnds(item: seq<string>, rest: seq<string>)
    requires item != [] && (forall i :: 1 <= i < |item| ==> !IsBullet(item[i])) && (rest != [] ==> IsBullet(rest[0]))
    ensures ItemTexts(item + rest) == [JoinLines(item)] + ItemTexts(rest)
  {
    assert (item + rest)[1..] == item[1..] + rest;
    BulletBehind(item[1..], rest);
    assert (item + rest)[..|item|] == item && (item + rest)[|item|..] == rest;
  }

  lemma ParagraphEnds(para: seq<string>, rest: seq<string>)
    requires (forall i :: 0 <= i < |para| ==> !IsBullet(para[i])) && (rest != [] ==> IsBullet(rest[0]))
    ensures RunBlocks(para + rest) == ParagraphBlock(para) + ListBlock(ItemTexts(rest))
  {
    BulletBehind(para, rest);
    assert (para + rest)[..|para|] == para && (para + rest)[|para|..] == rest;
  }

  lemma NothingContinues(para: seq<string>, list: seq<string>, item: seq<string>)
    requires IsPending(para, list, item)
    ensures Continued(para, list, item, []) == PendingBlocks(para, list, item)
  {
    if item != [] {
      ItemEnds(item, []);
      assert item + [] == item && ItemTexts(item) == ParagraphBlock(item);
      assert ParagraphBlock(para) == [];
    } else {
      ParagraphEnds(para, []);
      assert list + ParagraphBlock(item) == [] && ListBlock([]) == [];
    }
  }

  lemma BulletContinues(para: seq<string>, list: seq<string>, item: seq<string>, line: string, run: seq<string>)
    requires IsPending(para, list, item) && IsBullet(line)
    ensures Continued(para, list, item, [line] + run)
         == ParagraphBlock(para) + Continued([], list + ParagraphBlock(item), [line], run)
  {
    if item != [] {
      ItemEnds(item, [line] + run);
      assert list + ([JoinLines(item)] + ItemTexts([line] + run)) == list + [JoinLines(item)] + ItemTexts([line] + run);
    } else {
      ParagraphEnds(para, [line] + run);
      assert list + ParagraphBlock(item) + ItemTexts([line] + run) == ItemTexts([line] + run);
    }
  }

  lemma TextContinues(para: seq<string>, list: seq<string>, item: seq<string>, line: string, run: seq<string>)
    ensures Continued(para, list, item, [line] + run)
         == if item != [] then Continued(para, list, item + [line], run) else Continued(para + [line], list, item, run)
  {
    assert item + ([line] + run) == item + [line] + run && para + ([line] + run) == para + [line] + run;
  }

  // Before a blank line and at the end everything pending is complete.
  lemma AtRunEnd(para: seq<string>, list: seq<string>, item: seq<string>, rest: seq<string>)
    requires IsPending(para, list, item) && FirstBlank(rest) == 0
    ensures Prospect(para, list, item, rest) == PendingBlocks(para, list, item) + Blocks(rest)
  {
    assert rest[..0] == [] && rest[0..] == rest;
    NothingContinues(para, list, item);
  }

  lemma AtEnd(para: seq<string>, list: seq<string>, item: seq<string>)
    requires IsPending(para, list, item)
    ensures Prospect(para, list, item, []) == PendingBlocks(para, list, item)
  {
    AtRunEnd(para, list, item, []);
  }

  lemma NothingPending(rest: seq<string>)
    ensures Prospect([], [], [], rest) == Blocks(rest)
  {
    var run := rest[..FirstBlank(rest)];
    assert [] + run == run;
    BlocksOfRun(rest);
  }

  lemma AtBlank(para: seq<string>, list: seq<string>, item: seq<string>, line: string, rest: seq<string>)
    requires IsPending(para, list, item) && IsBlank(line)
    ensures Prospect(para, list, item, [line] + rest) == PendingBlocks(para, list, item) + Prospect([], [], [], rest)
  {
    AtRunEnd(para, list, item, [line] + rest);
    assert ([line] + rest)[1..] == rest;
    NothingPending(rest);
  }

  lemma RunGoesOn(line: string, rest: seq<string>)
    requires !IsBlank(line)
    ensures var n := FirstBlank([line] + rest);
      ([line] + rest)[..n] == [line] + rest[..FirstBlank(rest)] && ([line] + rest)[n..] == rest[FirstBlank(rest)..]
  {
    assert ([line] + rest)[1..] == rest;
  }

  lemma AtBullet(para: seq<string>, list: seq<string>, item: seq<string>, line: string, rest: seq<string>)
    requires IsPending(para, list, item) && IsBullet(line) && !IsBlank(line)
    ensures Prospect(para, list, item, [line] + rest)
         == ParagraphBlock(para) + Prospect([], list + ParagraphBlock(item), [line], rest)
  {
    RunGoesOn(line, rest);
    BulletContinues(para, list, item, line, rest[..FirstBlank(rest)]);
    Assoc(ParagraphBlock(para), Continued([], list + ParagraphBlock(item), [line], rest[..FirstBlank(rest)]),
          Blocks(rest[FirstBlank(rest)..]));
  }

  lemma AtText(para: seq<string>, list: seq<string>, item: seq<string>, line: string, rest: seq<string>)
    requires !IsBlank(line)
    ensures Prospect(para, list, item, [line] + rest)
         == if item != [] then Prospect(para, list, item + [line], rest) else Prospect(para + [line], list, item, rest)
  {
    RunGoesOn(line, rest);
    TextContinues(para, list, item, line, rest[..FirstBlank(rest)]);
  }

  lemma TagLines(lines: seq<string>, i: nat)
    requires i < |lines|
    ensures ProseEnd(lines) < i + 1 <==> ProseEnd(lines) < i || IsTagLine(lines[i])
  {
  }

  lemma NextProse(prose: seq<string>, lines: seq<string>, i: nat)
    requires prose <= lines && i < |lines|
    ensures i < |prose| ==> prose[i..] == [lines[i]] + prose[i + 1..]
  {
  }

  class BlockParser {
    var blocks: seq<string>
    var para: seq<string>
    var list: seq<string>
    var item: seq<string>
    var inTags: bool

    constructor ()
      ensures Valid() && !inTags && blocks == para == list == item == []
    {
      blocks, para, list, item, inTags := [], [], [], [], false;
    }

    ghost predicate Valid()
      reads this
    {
      IsPending(para, list, item) && (inTags ==> para == item == [])
    }

    // All blocks there will be if these lines of prose follow.
    ghost function Yields(rest: seq<string>): seq<string>
      reads this
    {
      blocks + Prospect(para, list, item, rest)
    }

    method FlushItem()
      modifies this`list, this`item
      ensures item == [] && list == old(list) + ParagraphBlock(old(item))
    {
      if item != [] { list := list + [JoinLines(item)]; }
      item := [];
    }

    method FlushList()
      modifies this`blocks, this`list, this`item
      ensures item == [] && list == [] && blocks == old(blocks) + ListBlock(old(list) + ParagraphBlock(old(item)))
    {
      FlushItem();
      if list != [] { blocks := blocks + [JoinWith(list, "\n")]; }
      list := [];
    }

    method FlushPara()
      modifies this`blocks, this`para, this`list, this`item
      ensures para == list == item == [] && blocks == old(blocks) + PendingBlocks(old(para), old(list), old(item))
    {
      FlushList();
      Assoc(old(blocks), ListBlock(old(list) + ParagraphBlock(old(item))), ParagraphBlock(para));
      if para != [] { blocks := blocks + [JoinLines(para)]; }
      para := [];
    }

    // One line of the comment. A line of prose leaves the prospect as it was; at the first block
    // tag all pending prose is complete; nothing behind it is prose.
    method Feed(line: string, ghost rest: seq<string>)
      requires Valid()
      modifies this
      ensures Valid() && inTags == (old(inTags) || IsTagLine(line))
      ensures !inTags ==> Yields(rest) == old(Yields([line] + rest))
      ensures inTags ==> para == list == item == [] && blocks == (if old(inTags) then old(blocks) else old(Yields([])))
    {
      if IsTagLine(line) {
        AtEnd(para, list, item);
        FlushPara();
        inTags := true;
      } else if inTags {
        // a continuation of a block tag is no prose
      } else if IsBlank(line) {
        EndRun(line, rest);
      } else if IsBullet(line) {
        OpenItem(line, rest);
      } else {
        Continue(line, rest);
      }
    }

    // A blank line completes everything pending.
    method EndRun(ghost line: string, ghost rest: seq<string>)
      requires Valid() && IsBlank(line)
      modifies this`blocks, this`para, this`list, this`item
      ensures Valid() && para == list == item == []
      ensures Yields(rest) == old(Yields([line] + rest))
    {
      AtBlank(para, list, item, line, rest);
      Assoc(blocks, PendingBlocks(para, list, item), Prospect([], [], [], rest));
      FlushPara();
    }

    // A list item starts.
    method OpenItem(line: string, ghost rest: seq<string>)
      requires Valid() && !inTags && IsBullet(line) && !IsBlank(line)
      modifies this`blocks, this`para, this`list, this`item
      ensures Valid() && Yields(rest) == old(Yields([line] + rest))
    {
      AtBullet(para, list, item, line, rest);
      Assoc(blocks, ParagraphBlock(para), Prospect([], list + ParagraphBlock(item), [line], rest));
      StartItem(line);
    }

    // A paragraph right above the item is completed first.
    method StartItem(line: string)
      modifies this`blocks, this`para, this`list, this`item
      ensures blocks == old(blocks) + ParagraphBlock(old(para)) && para == []
      ensures list == old(list) + ParagraphBlock(old(item)) && item == [line]
    {
      FlushItem();
      if para != [] {
        blocks := blocks + [JoinLines(para)];
        para := [];
      }
      item := item + [line];
    }

    // A line continues the open item, or else the paragraph.
    method Continue(line: string, ghost rest: seq<string>)
      requires Valid() && !inTags && !IsBullet(line) && !IsBlank(line)
      modifies this`para, this`item
      ensures Valid() && Yields(rest) == old(Yields([line] + rest))
      ensures if old(item) != [] then item == old(item) + [line] && para == old(para)
              else para == old(para) + [line] && item == old(item)
    {
      AtText(para, list, item, line, rest);
      if item != [] {
        item := item + [line];
      } else {
        para := para + [line];
      }
    }

    // The first i lines are read.
    ghost predicate HasRead(lines: seq<string>, i: nat)
      reads this
    {
      var prose := lines[..ProseEnd(lines)];
      && Valid() && (inTags <==> |prose| < i)
      && (if i <= |prose| then Yields(prose[i..]) == Blocks(prose)
          else para == list == item == [] && blocks == Blocks(prose))
    }

    method ReadLine(lines: seq<string>, i: nat)
      requires i < |lines| && HasRead(lines, i)
      modifies this
      ensures HasRead(lines, i + 1)
    {
      ghost var prose := lines[..ProseEnd(lines)];
      TagLines(lines, i);
      NextProse(prose, lines, i);
      assert i == |prose| ==> prose[i..] == [];
      Feed(lines[i], if i < |prose| then prose[i + 1..] else []);
    }

    method ReadAll(lines: seq<string>)
      requires Valid() && !inTags && blocks == para == list == item == []
      modifies this
      ensures blocks == Blocks(lines[..ProseEnd(lines)])
    {
      ghost var prose := lines[..ProseEnd(lines)];
      NothingPending(prose);
      assert prose[0..] == prose;
      for i := 0 to |lines|
        invariant HasRead(lines, i)
      {
        ReadLine(lines, i);
      }
      AtEnd(para, list, item);
      assert ProseEnd(lines) == |lines| ==> prose[|lines|..] == [];
      FlushPara();
    }
  }

  // The output is the blocks of the prose lines, and so holds their words, all of them and in
  // order, for every mix of paragraphs, bullets and continuation lines.
  method ParseBlocks(lines: seq<string>) returns (doc: string)
    ensures doc == Trim(JoinWith(Blocks(lines[..ProseEnd(lines)]), "\n\n"))
    ensures Words(doc) == WordsOf(lines[..ProseEnd(lines)])
  {
    var parser := new BlockParser();
    ghost var prose := lines[..ProseEnd(lines)];
    parser.ReadAll(lines);
    BlocksKeepWords(prose);
    OutputWords(parser.blocks);
    doc := Trim(JoinWith(parser.blocks, "\n\n"));
  }

  lemma OutputWords(blocks: seq<string>)
    ensures Words(Trim(JoinWith(blocks, "\n\n"))) == WordsOf(blocks)
  {
    WordsJoin(blocks, "\n\n");
    WordsTrim(JoinWith(blocks, "\n\n"));
  }
}

/** Block structure: `markdown_to_blocks` cuts a document into blocks at
    blank lines, and `block_to_block_type` decides what kind each block is. */
module Blocks {
  import opened Results
  import opened Strings

  // ---------------------------------------------------------------------
  // markdown_to_blocks
  // ---------------------------------------------------------------------

  /** The pieces, stripped, with the blank ones left out; defined on the
      last piece, as the comprehension visits them left to right. */
  function NonBlank(pieces: seq<string>): seq<string>
    decreases |pieces|
  {
    if pieces == [] then []
    else
      var b := Strip(pieces[|pieces| - 1]);
      NonBlank(pieces[..|pieces| - 1]) + (if b == "" then [] else [b])
  }

  /** `markdown_to_blocks`: split on "\n\n", strip every piece and keep the
      pieces that are not empty after stripping. */
  function MarkdownToBlocks(markdown: string): seq<string>
  {
    NonBlank(Split(markdown, "\n\n"))
  }

  /** The indices of the pieces that are kept, in increasing order. */
  function Kept(pieces: seq<string>): seq<nat>
    decreases |pieces|
  {
    if pieces == [] then []
    else
      var n := |pieces| - 1;
      Kept(pieces[..n]) + (if Strip(pieces[n]) == "" then [] else [n])
  }

  /** One block per kept piece. */
  lemma {:induction false} KeptLength(pieces: seq<string>)
    ensures |Kept(pieces)| == |NonBlank(pieces)|
    decreases |pieces|
  {
    if pieces != [] {
      KeptLength(pieces[..|pieces| - 1]);
    }
  }

  /** Block k is piece `Kept(pieces)[k]`, stripped. */
  lemma {:induction false} KeptPieces(pieces: seq<string>)
    ensures |Kept(pieces)| == |NonBlank(pieces)|
    ensures forall k :: 0 <= k < |Kept(pieces)| ==>
              Kept(pieces)[k] < |pieces| && NonBlank(pieces)[k] == Strip(pieces[Kept(pieces)[k]])
    decreases |pieces|
  {
    KeptLength(pieces);
    if pieces != [] {
      var n := |pieces| - 1;
      var init := pieces[..n];
      KeptPieces(init);
      forall k | 0 <= k < |Kept(init)|
        ensures Kept(pieces)[k] == Kept(init)[k] && NonBlank(pieces)[k] == NonBlank(init)[k]
      {
      }
      assert forall i :: 0 <= i < n ==> init[i] == pieces[i];
    }
  }

  /** The kept indices increase. */
  lemma {:induction false} KeptIncreasing(pieces: seq<string>)
    ensures forall k :: 0 <= k < |Kept(pieces)| ==> Kept(pieces)[k] < |pieces|
    ensures forall k, l :: 0 <= k < l < |Kept(pieces)| ==> Kept(pieces)[k] < Kept(pieces)[l]
    decreases |pieces|
  {
    if pieces != [] {
      KeptIncreasing(pieces[..|pieces| - 1]);
    }
  }

  /** Every piece that is not blank is kept. */
  lemma {:induction false} KeptComplete(pieces: seq<string>)
    ensures forall i :: 0 <= i < |pieces| && Strip(pieces[i]) != "" ==> i in Kept(pieces)
    decreases |pieces|
  {
    if pieces != [] {
      var n := |pieces| - 1;
      var init := pieces[..n];
      KeptComplete(init);
      var last := if Strip(pieces[n]) == "" then [] else [n];
      assert Kept(pieces) == Kept(init) + last;
      forall i | 0 <= i < |pieces| && Strip(pieces[i]) != "" ensures i in Kept(pieces) {
        if i < n {
          assert init[i] == pieces[i];
          assert i in Kept(init);
        } else {
          assert i in last;
        }
      }
    }
  }

  /** `markdown_to_blocks` keeps the order of the input: its blocks are the
      stripped non-blank pieces between blank lines, in increasing order of
      position, and none is skipped. */
  lemma BlocksInOrder(markdown: string)
    ensures var pieces := Split(markdown, "\n\n");
            var blocks := MarkdownToBlocks(markdown);
            var idx := Kept(pieces);
            && |idx| == |blocks|
            && (forall k :: 0 <= k < |idx| ==> idx[k] < |pieces| && blocks[k] == Strip(pieces[idx[k]]))
            && (forall k, l :: 0 <= k < l < |idx| ==> idx[k] < idx[l])
            && (forall i :: 0 <= i < |pieces| && Strip(pieces[i]) != "" ==> i in idx)
  {
    var pieces := Split(markdown, "\n\n");
    KeptPieces(pieces);
    KeptIncreasing(pieces);
    KeptComplete(pieces);
  }

  /** Every kept piece is non-empty and already stripped. */
  lemma {:induction false} NonBlankStripped(pieces: seq<string>)
    ensures forall k :: 0 <= k < |NonBlank(pieces)| ==>
              var b := NonBlank(pieces)[k];
              b != "" && !IsSpace(b[0]) && !IsSpace(b[|b| - 1])
    decreases |pieces|
  {
    if pieces != [] {
      NonBlankStripped(pieces[..|pieces| - 1]);
      StripSpec(pieces[|pieces| - 1]);
    }
  }

  /** No block is empty, and none starts or ends with whitespace. */
  lemma BlocksStripped(markdown: string)
    ensures forall k :: 0 <= k < |MarkdownToBlocks(markdown)| ==>
              var b := MarkdownToBlocks(markdown)[k];
              b != "" && !IsSpace(b[0]) && !IsSpace(b[|b| - 1]) && Strip(b) == b
  {
    NonBlankStripped(Split(markdown, "\n\n"));
    forall k | 0 <= k < |MarkdownToBlocks(markdown)| {
      StripUnchanged(MarkdownToBlocks(markdown)[k]);
    }
  }

  /** A joined text that is all whitespace has all-whitespace parts. */
  lemma {:induction false} AllSpaceJoin(parts: seq<string>, sep: string)
    requires AllSpace(Join(parts, sep))
    ensures forall i :: 0 <= i < |parts| ==> AllSpace(parts[i])
    decreases |parts|
  {
    if |parts| > 1 {
      var tail := Join(parts[1..], sep);
      assert Join(parts, sep) == parts[0] + sep + tail;
      assert forall k :: 0 <= k < |parts[0]| ==> parts[0][k] == Join(parts, sep)[k];
      assert forall k :: 0 <= k < |tail| ==> tail[k] == Join(parts, sep)[|parts[0]| + |sep| + k];
      AllSpaceJoin(parts[1..], sep);
      assert forall i :: 1 <= i < |parts| ==> parts[i] == parts[1..][i - 1];
    }
  }

  /** Pieces that are all whitespace leave no block. */
  lemma {:induction false} NonBlankAllSpace(pieces: seq<string>)
    requires forall i :: 0 <= i < |pieces| ==> AllSpace(pieces[i])
    ensures NonBlank(pieces) == []
    decreases |pieces|
  {
    if pieces != [] {
      NonBlankAllSpace(pieces[..|pieces| - 1]);
      StripSpec(pieces[|pieces| - 1]);
    }
  }

  /** Input that is empty or only whitespace has no blocks. */
  lemma BlankHasNoBlocks(markdown: string)
    requires AllSpace(markdown)
    ensures MarkdownToBlocks(markdown) == []
  {
    JoinSplit(markdown, "\n\n");
    AllSpaceJoin(Split(markdown, "\n\n"), "\n\n");
    NonBlankAllSpace(Split(markdown, "\n\n"));
  }

  /** A slice of a string without `sep` has no `sep` either. */
  lemma AbsentSlice(s: string, sep: string, i: nat, j: nat)
    requires i <= j <= |s| && Absent(s, sep)
    ensures Absent(s[i..j], sep)
  {
    forall k: nat | k <= j - i ensures !OccursAt(s[i..j], sep, k) {
      assert !OccursAt(s, sep, i + k);
      if k + |sep| <= j - i {
        var a := s[i..j][k..k + |sep|];
        var b := s[i + k..i + k + |sep|];
        assert |a| == |b|;
        assert forall m :: 0 <= m < |a| ==> a[m] == s[i + k + m] == b[m];
      }
    }
  }

  /** Kept pieces hold no blank-line separator when the pieces do not. */
  lemma {:induction false} NonBlankAbsent(pieces: seq<string>, sep: string)
    requires forall i :: 0 <= i < |pieces| ==> Absent(pieces[i], sep)
    ensures forall k :: 0 <= k < |NonBlank(pieces)| ==> Absent(NonBlank(pieces)[k], sep)
    decreases |pieces|
  {
    if pieces != [] {
      var last := pieces[|pieces| - 1];
      NonBlankAbsent(pieces[..|pieces| - 1], sep);
      StripSpec(last);
      var i, j :| 0 <= i <= j <= |last| && Strip(last) == last[i..j]
                  && AllSpace(last[..i]) && AllSpace(last[j..]);
      AbsentSlice(last, sep, i, j);
    }
  }

  /** No block contains "\n\n": the blank lines are all between blocks. */
  lemma BlocksHaveNoBlankLine(markdown: string)
    ensures forall k :: 0 <= k < |MarkdownToBlocks(markdown)| ==>
              Absent(MarkdownToBlocks(markdown)[k], "\n\n")
  {
    SplitAbsent(markdown, "\n\n");
    NonBlankAbsent(Split(markdown, "\n\n"), "\n\n");
  }

  /** A block, which neither contains a blank line nor ends with a
      newline, cannot start a blank line that runs into the next join. */
  lemma BlockNewlineAbsent(b: string)
    requires b != [] && b[|b| - 1] != '\n' && Absent(b, "\n\n")
    ensures Absent(b + "\n", "\n\n")
  {
    var s := b + "\n";
    forall k: nat | k <= |s| ensures !OccursAt(s, "\n\n", k) {
      if k + 2 <= |b| {
        assert s[k..k + 2] == b[k..k + 2];
        assert !OccursAt(b, "\n\n", k);
      } else if k + 2 == |s| {
        assert s[k..k + 2][0] == b[|b| - 1];
      }
    }
  }

  /** Pieces that are already non-empty and stripped are all kept as they
      are. */
  lemma {:induction false} NonBlankKeepsStripped(pieces: seq<string>)
    requires forall i :: 0 <= i < |pieces| ==> pieces[i] != "" && Strip(pieces[i]) == pieces[i]
    ensures NonBlank(pieces) == pieces
    decreases |pieces|
  {
    if pieces != [] {
      var n := |pieces| - 1;
      NonBlankKeepsStripped(pieces[..n]);
      assert pieces == pieces[..n] + [pieces[n]];
    }
  }

  /** Splitting the blocks joined back with blank lines gives the same
      blocks: `markdown_to_blocks` is idempotent over its own output. */
  lemma BlocksRoundTrip(markdown: string)
    ensures MarkdownToBlocks(Join(MarkdownToBlocks(markdown), "\n\n")) == MarkdownToBlocks(markdown)
  {
    var bs := MarkdownToBlocks(markdown);
    if bs == [] {
      BlankHasNoBlocks("");
    } else {
      BlocksStripped(markdown);
      BlocksHaveNoBlankLine(markdown);
      forall i | 0 <= i < |bs| ensures Absent(bs[i] + "\n\n"[..1], "\n\n") {
        assert "\n\n"[..1] == "\n";
        BlockNewlineAbsent(bs[i]);
      }
      SplitJoin(bs, "\n\n");
      NonBlankKeepsStripped(bs);
    }
  }

  // ---------------------------------------------------------------------
  // block_to_block_type
  // ---------------------------------------------------------------------

  datatype BlockType = Paragraph | Heading | Code | Quote | UnorderedList | OrderedList

  /** The number of '#' characters at the start of `s`. */
  function LeadingHashes(s: string): (n: nat)
    ensures n <= |s|
    decreases |s|
  {
    if s == [] || s[0] != '#' then 0 else 1 + LeadingHashes(s[1..])
  }

  /** The run is made of '#' and stops at the first other character. */
  lemma {:induction false} HashRun(s: string)
    ensures forall k :: 0 <= k < LeadingHashes(s) ==> s[k] == '#'
    ensures LeadingHashes(s) < |s| ==> s[LeadingHashes(s)] != '#'
    decreases |s|
  {
    if s != [] && s[0] == '#' {
      HashRun(s[1..]);
      assert forall k :: 1 <= k < LeadingHashes(s) ==> s[k] == s[1..][k - 1];
    }
  }

  /** One to six '#' and then a space. */
  predicate IsHeadingLine(line: string) {
    var h := LeadingHashes(line);
    1 <= h <= 6 && h < |line| && line[h] == ' '
  }

  /** Opens and closes with three backticks (one run of three does both). */
  predicate IsCodeBlock(block: string) {
    StartsWith(block, "```") && EndsWith(block, "```")
  }

  predicate IsQuoteBlock(lines: seq<string>) {
    forall i :: 0 <= i < |lines| ==> StartsWith(lines[i], ">")
  }

  predicate IsUnorderedBlock(lines: seq<string>) {
    forall i :: 0 <= i < |lines| ==> StartsWith(lines[i], "- ")
  }

  /** Line `n` (counting from 1) of an ordered list: a run of digits whose
      value is `n`, leading zeros allowed, then ". ". A line that ends right
      after the dot does not qualify (the `IndexError` case). */
  predicate IsOrderedLine(line: string, n: nat) {
    var d := LeadingDigits(line);
    0 < d && d + 1 < |line| && line[d] == '.' && line[d + 1] == ' '
    && DecimalValue(line[..d]) == n
  }

  predicate IsOrderedBlock(lines: seq<string>) {
    forall i :: 0 <= i < |lines| ==> IsOrderedLine(lines[i], i + 1)
  }

  /** `block_to_block_type`: the first test that passes decides, in the
      order heading, code, quote, unordered list, ordered list; anything
      else is a paragraph. */
  function Classify(block: string): BlockType
  {
    var lines := Split(block, "\n");
    if IsHeadingLine(lines[0]) then Heading
    else if IsCodeBlock(block) then Code
    else if IsQuoteBlock(lines) then Quote
    else if IsUnorderedBlock(lines) then UnorderedList
    else if IsOrderedBlock(lines) then OrderedList
    else Paragraph
  }

  /** The `hashes` loop: counts the '#' at the start of `line`. */
  method CountHashes(line: string) returns (hashes: nat)
    ensures hashes == LeadingHashes(line)
  {
    hashes := 0;
    while hashes < |line| && line[hashes] == '#'
      invariant hashes <= |line|
      invariant LeadingHashes(line) == hashes + LeadingHashes(line[hashes..])
    {
      assert line[hashes..][1..] == line[hashes + 1..];
      hashes := hashes + 1;
    }
  }

  /** The `num_str` loop: the digits at the start of `line`. */
  method ReadDigits(line: string) returns (numStr: string)
    ensures numStr == line[..LeadingDigits(line)]
  {
    numStr := "";
    var k := 0;
    while k < |line| && IsDigit(line[k])
      invariant k <= |line| && numStr == line[..k]
      invariant LeadingDigits(line) == k + LeadingDigits(line[k..])
    {
      assert line[k..][1..] == line[k + 1..];
      numStr := numStr + [line[k]];
      k := k + 1;
    }
  }

  /** One iteration of the ordered-list loop: does line `n` qualify. */
  method CheckOrderedLine(line: string, n: nat) returns (ok: bool)
    ensures ok == IsOrderedLine(line, n)
  {
    if line == [] || !IsDigit(line[0]) {
      return false;
    }
    var numStr := ReadDigits(line);
    var num := DecimalValue(numStr);
    if num != n {
      return false;
    }
    if !(|line| > |numStr| && line[|numStr|] == '.') {
      return false;
    }
    if |numStr| + 1 >= |line| {
      // line[len(num_str) + 1] raises IndexError
      return false;
    }
    ok := line[|numStr| + 1] == ' ';
  }

  /** The `is_ordered_list` loop: stops at the first line that fails. */
  method CheckOrderedList(lines: seq<string>) returns (isOrderedList: bool)
    ensures isOrderedList == IsOrderedBlock(lines)
  {
    isOrderedList := true;
    var i := 0;
    while i < |lines|
      invariant i <= |lines|
      invariant forall k :: 0 <= k < i ==> IsOrderedLine(lines[k], k + 1)
    {
      var ok := CheckOrderedLine(lines[i], i + 1);
      if !ok {
        isOrderedList := false;
        break;
      }
      i := i + 1;
    }
  }

  /** `block_to_block_type`, with its loops. */
  method BlockToBlockType(block: string) returns (blockType: BlockType)
    ensures blockType == Classify(block)
  {
    var lines := Split(block, "\n");
    if StartsWith(lines[0], "#") {
      var hashes := CountHashes(lines[0]);
      if 1 <= hashes <= 6 && hashes < |lines[0]| && lines[0][hashes] == ' ' {
        return Heading;
      }
    }
    if StartsWith(block, "```") && EndsWith(block, "```") {
      return Code;
    }
    if forall i | 0 <= i < |lines| :: StartsWith(lines[i], ">") {
      return Quote;
    }
    if forall i | 0 <= i < |lines| :: StartsWith(lines[i], "- ") {
      return UnorderedList;
    }
    var isOrderedList := CheckOrderedList(lines);
    if isOrderedList {
      return OrderedList;
    }
    return Paragraph;
  }

  // ---------------------------------------------------------------------
  // What the classification means
  // ---------------------------------------------------------------------

  /** The first line is the text before the first newline. */
  lemma FirstLine(block: string)
    ensures var line := Split(block, "\n")[0];
            && |line| <= |block| && line == block[..|line|]
            && (|line| < |block| ==> block[|line|] == '\n')
  {
    FindSpec(block, "\n");
    match Find(block, "\n")
    case None =>
    case Some(j) =>
      SplitFound(block, "\n", j);
      assert block[j..j + 1] == "\n";
  }

  /** A prefix followed by anything but '#' starts with the same run of '#'. */
  lemma {:induction false} HashesOfPrefix(s: string, p: nat)
    requires p <= |s| && (p < |s| ==> s[p] != '#')
    ensures LeadingHashes(s[..p]) == LeadingHashes(s)
    decreases p
  {
    if p > 0 && s[0] == '#' {
      assert s[..p][1..] == s[1..][..p - 1];
      HashesOfPrefix(s[1..], p - 1);
    }
  }

  /** The first line is a heading line exactly when the block starts like
      one: the test looks no further than the first line anyway. */
  lemma HeadingFirstLine(block: string)
    ensures IsHeadingLine(Split(block, "\n")[0]) <==> IsHeadingLine(block)
  {
    var line := Split(block, "\n")[0];
    FirstLine(block);
    HashesOfPrefix(block, |line|);
  }

  /** A block that starts with `c`, where `c` is not a newline, has a first
      line that starts with `c`. */
  lemma FirstLineStart(block: string, c: char)
    requires block != [] && block[0] == c && c != '\n'
    ensures var line := Split(block, "\n")[0];
            line != [] && line[0] == c && LeadingHashes(line) == LeadingHashes(block)
  {
    FirstLine(block);
    HashesOfPrefix(block, |Split(block, "\n")[0]|);
  }

  /** A heading is exactly a block that opens with one to six '#' and a
      space. */
  lemma HeadingIff(block: string)
    ensures Classify(block) == Heading <==> IsHeadingLine(block)
  {
    HeadingFirstLine(block);
  }

  /** Seven '#' never make a heading. */
  lemma SevenHashesNoHeading(block: string)
    requires StartsWith(block, "#######")
    ensures Classify(block) != Heading
  {
    HeadingFirstLine(block);
    HashRun(block);
    if LeadingHashes(block) < 7 {
      assert block[LeadingHashes(block)] == "#######"[LeadingHashes(block)];
    }
  }

  /** A block is code exactly when it opens and closes with three
      backticks: no such block is a heading. */
  lemma CodeIff(block: string)
    ensures Classify(block) == Code <==> IsCodeBlock(block)
  {
    if IsCodeBlock(block) {
      assert block[0] == "```"[0];
      FirstLineStart(block, '`');
    }
  }

  /** A block whose first line is not empty starts with that line's first
      character. */
  lemma FirstCharacter(block: string)
    requires Split(block, "\n")[0] != []
    ensures block != [] && block[0] == Split(block, "\n")[0][0]
  {
    FirstLine(block);
  }

  /** A block is a quote exactly when every line starts with '>': such a
      block starts with '>', so it is neither a heading nor code. */
  lemma QuoteIff(block: string)
    ensures Classify(block) == Quote <==> IsQuoteBlock(Split(block, "\n"))
  {
    var lines := Split(block, "\n");
    if IsQuoteBlock(lines) {
      assert lines[0][..1] == ">";
      FirstCharacter(block);
      FirstLineStart(block, '>');
    }
  }

  /** A block is an unordered list exactly when every line starts with "- ":
      such a block starts with '-', so no earlier test passes. */
  lemma UnorderedIff(block: string)
    ensures Classify(block) == UnorderedList <==> IsUnorderedBlock(Split(block, "\n"))
  {
    var lines := Split(block, "\n");
    if IsUnorderedBlock(lines) {
      assert lines[0][..2] == "- ";
      FirstCharacter(block);
      FirstLineStart(block, '-');
    }
  }

  /** A block is an ordered list exactly when line i (from 1) starts with
      digits whose value is i, then ". ": such a block starts with a digit,
      so no earlier test passes. */
  lemma OrderedIff(block: string)
    ensures Classify(block) == OrderedList <==> IsOrderedBlock(Split(block, "\n"))
  {
    var lines := Split(block, "\n");
    if IsOrderedBlock(lines) {
      var line := lines[0];
      assert IsOrderedLine(line, 1);
      assert IsDigit(line[0]) by {
        assert line[..LeadingDigits(line)][0] == line[0];
      }
      assert !IsQuoteBlock(lines) by {
        assert line[..1][0] == line[0];
      }
      assert !IsUnorderedBlock(lines) by {
        assert line[..2][0] == line[0];
      }
      FirstCharacter(block);
      assert !IsCodeBlock(block) by {
        assert block[..3][0] == block[0];
      }
      FirstLineStart(block, block[0]);
    }
  }

  /** Leading zeros do not stop a line from counting: "01. a" is line one. */
  lemma LeadingZeroCounts()
    ensures IsOrderedLine("01. a", 1)
  {
    assert LeadingDigits("01. a") == 2 by {
      assert "01. a"[1..] == "1. a";
      assert "1. a"[1..] == ". a";
    }
    assert "01. a"[..2] == "01";
    assert "01"[..1] == "0";
  }
}

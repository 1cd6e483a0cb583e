/** `extract_title`: the page title is the text of the first line that,
    once stripped, starts with "# ". */
module Title {
  import opened Results
  import opened Strings

  /** The test applied to every line: stripped, it starts with "# " and
      not with "## ". */
  predicate IsTitleLine(line: string) {
    var stripped := Strip(line);
    StartsWith(stripped, "# ") && !StartsWith(stripped, "## ")
  }

  /** The title a qualifying line gives: `stripped[2:].strip()`. */
  function TitleOf(line: string): string {
    Strip(Drop(Strip(line), 2))
  }

  /** The loop over the lines, returning at the first qualifying one. */
  function FirstTitle(lines: seq<string>): Result<string>
    decreases |lines|
  {
    if lines == [] then Err(NoTitleFound)
    else if IsTitleLine(lines[0]) then Ok(TitleOf(lines[0]))
    else FirstTitle(lines[1..])
  }

  /** `extract_title`. */
  function ExtractTitle(markdown: string): Result<string> {
    FirstTitle(Split(markdown, "\n"))
  }

  /** Where the search stops: the index of the first qualifying line, or
      the number of lines when none qualifies. */
  function FirstTitleIndex(lines: seq<string>): (k: nat)
    ensures k <= |lines|
    decreases |lines|
  {
    if lines == [] || IsTitleLine(lines[0]) then 0 else 1 + FirstTitleIndex(lines[1..])
  }

  /** No line before the stopping index qualifies, and the line at it does. */
  lemma {:induction false} FirstTitleIndexSpec(lines: seq<string>)
    ensures forall j :: 0 <= j < FirstTitleIndex(lines) ==> !IsTitleLine(lines[j])
    ensures FirstTitleIndex(lines) < |lines| ==> IsTitleLine(lines[FirstTitleIndex(lines)])
    decreases |lines|
  {
    if lines != [] && !IsTitleLine(lines[0]) {
      var tail := lines[1..];
      FirstTitleIndexSpec(tail);
      forall j | 1 <= j <= FirstTitleIndex(tail) && j < |lines|
        ensures lines[j] == tail[j - 1]
      {
      }
    }
  }

  /** The search returns the title of the line where it stops, or fails
      with `NoTitleFound` when it runs off the end. */
  lemma {:induction false} FirstTitleAt(lines: seq<string>)
    ensures FirstTitle(lines) ==
              if FirstTitleIndex(lines) < |lines| then Ok(TitleOf(lines[FirstTitleIndex(lines)]))
              else Err(NoTitleFound)
    decreases |lines|
  {
    if lines != [] && !IsTitleLine(lines[0]) {
      FirstTitleAt(lines[1..]);
    }
  }

  /** The title comes from the first line of the document that qualifies,
      and there is none exactly when no line qualifies. */
  lemma ExtractTitleFirst(markdown: string)
    ensures var lines := Split(markdown, "\n");
            var k := FirstTitleIndex(lines);
            && (forall j :: 0 <= j < k ==> !IsTitleLine(lines[j]))
            && (k < |lines| ==> IsTitleLine(lines[k]) && ExtractTitle(markdown) == Ok(TitleOf(lines[k])))
            && (k == |lines| ==> ExtractTitle(markdown) == Err(NoTitleFound))
  {
    FirstTitleIndexSpec(Split(markdown, "\n"));
    FirstTitleAt(Split(markdown, "\n"));
  }

  /** The "## " test never changes the outcome: a stripped line that starts
      with "# " cannot start with "##". So a line starting with "##" is
      never chosen. */
  lemma DoubleHashNeverChosen(line: string)
    ensures IsTitleLine(line) <==> StartsWith(Strip(line), "# ")
    ensures StartsWith(Strip(line), "##") ==> !IsTitleLine(line)
  {
    var s := Strip(line);
    if StartsWith(s, "# ") {
      assert s[1] == "# "[1];
    }
    if StartsWith(s, "##") {
      assert s[1] == "##"[1];
    }
  }

  /** The title is never empty and has no whitespace at either end. */
  lemma TitleStripped(line: string)
    requires IsTitleLine(line)
    ensures var t := TitleOf(line);
            t != "" && !IsSpace(t[0]) && !IsSpace(t[|t| - 1]) && Strip(t) == t
  {
    var s := Strip(line);
    StripSpec(line);
    assert s[1] == ' ';
    var rest := s[2..];
    assert Drop(s, 2) == rest;
    assert rest != [] && !IsSpace(rest[|rest| - 1]) by {
      assert |s| != 2;
      assert rest[|rest| - 1] == s[|s| - 1];
    }
    StripSpec(rest);
    StripIdempotent(rest);
  }

  /** A line that strips to a lone '#' is not a title. */
  lemma LoneHashNoTitle(line: string)
    requires Strip(line) == "#"
    ensures !IsTitleLine(line)
  {
  }

  /** A document with no text has no title. */
  lemma EmptyHasNoTitle()
    ensures ExtractTitle("") == Err(NoTitleFound)
  {
    assert Split("", "\n") == [""];
    assert !IsTitleLine("");
  }
}

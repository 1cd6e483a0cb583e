/** Finding image syntax `![alt](url)` and link syntax `[anchor](url)` in a
    string. The two regular expressions of the source,
      images: `!\[([^\]]*)\]\(([^)]+)\)`
      links:  `(?<!\!)\[([^\]]+)\]\(([^)]+)\)`
    are deterministic (each bracketed part is a maximal run of characters
    other than its closing bracket), so each becomes a left-to-right scanner
    without backtracking: try a match at the current position; after a
    match resume at its end, otherwise one position further on. */
module MarkdownExtractor {
  import opened Results
  import opened Strings

  /** A match occupying `s[start..end]`, with its bracket text (alt or
      anchor) and its url. */
  datatype Match = Match(start: nat, end: nat, text: string, url: string)

  predicate Lacks(s: string, c: char) {
    forall k :: 0 <= k < |s| ==> s[k] != c
  }

  /** `t` occurs somewhere in `s`. */
  predicate Contains(s: string, t: string) {
    exists i: nat :: i <= |s| && OccursAt(s, t, i)
  }

  /** The text after the opening bracket: `text](url)`. */
  function BracketSyntax(text: string, url: string): string {
    text + "](" + url + ")"
  }

  /** `![alt](url)` */
  function ImageSyntax(alt: string, url: string): string {
    "![" + BracketSyntax(alt, url)
  }

  /** `[anchor](url)` */
  function LinkSyntax(anchor: string, url: string): string {
    "[" + BracketSyntax(anchor, url)
  }

  // ---------------------------------------------------------------------
  // The two patterns, position by position
  // ---------------------------------------------------------------------

  /** From index `i`, `s` holds `text`, then `](`, then `url`, then `)`,
      where `text` holds no `]` and `url` is non-empty and holds no `)`. */
  predicate BracketsAt(s: string, i: nat, text: string, url: string) {
    var a := i + |text|;
    var u := a + 2 + |url|;
    && u < |s|
    && s[i..a] == text && s[a] == ']' && s[a + 1] == '(' && s[a + 2..u] == url && s[u] == ')'
    && Lacks(text, ']') && url != [] && Lacks(url, ')')
  }

  /** `m` is a match of the image pattern in `s`: `![`, then brackets laid
      out with a possibly empty alt. This is the reference definition the
      scanner is proved against. */
  predicate IsImageMatch(s: string, m: Match) {
    && m.start + 1 < |s| && s[m.start] == '!' && s[m.start + 1] == '['
    && BracketsAt(s, m.start + 2, m.text, m.url)
    && m.end == m.start + |m.text| + |m.url| + 5
  }

  /** `m` is a match of the link pattern in `s`: `[` not preceded by `!`,
      then brackets laid out with a non-empty anchor. */
  predicate IsLinkMatch(s: string, m: Match) {
    && m.start < |s| && s[m.start] == '[' && (m.start == 0 || s[m.start - 1] != '!')
    && BracketsAt(s, m.start + 1, m.text, m.url)
    && m.end == m.start + |m.text| + |m.url| + 4 && m.text != []
  }

  /** A match spans exactly the image syntax rebuilt from its alt and url. */
  lemma ImageMatchSyntax(s: string, m: Match)
    requires IsImageMatch(s, m)
    ensures m.end <= |s| && s[m.start..m.end] == ImageSyntax(m.text, m.url)
  {
    var p := m.start;
    BracketsSyntax(s, p + 2, m.text, m.url);
    assert s[p..m.end] == [s[p], s[p + 1]] + s[p + 2..m.end];
  }

  /** A match spans exactly the link syntax rebuilt from its anchor and url. */
  lemma LinkMatchSyntax(s: string, m: Match)
    requires IsLinkMatch(s, m)
    ensures m.end <= |s| && s[m.start..m.end] == LinkSyntax(m.text, m.url)
  {
    var p := m.start;
    BracketsSyntax(s, p + 1, m.text, m.url);
    assert s[p..m.end] == [s[p]] + s[p + 1..m.end];
  }

  /** Laid-out brackets span exactly their syntax. */
  lemma BracketsSyntax(s: string, i: nat, text: string, url: string)
    requires BracketsAt(s, i, text, url)
    ensures s[i..i + |text| + |url| + 3] == BracketSyntax(text, url)
  {
    var a := i + |text|;
    var u := a + 2 + |url|;
    assert s[i..u + 1] == s[i..a] + [s[a], s[a + 1]] + s[a + 2..u] + [s[u]];
  }

  // ---------------------------------------------------------------------
  // The scanners
  // ---------------------------------------------------------------------

  /** End of the maximal run of characters other than `stop` from `i`. */
  function RunUntil(s: string, i: nat, stop: char): (j: nat)
    requires i <= |s|
    ensures i <= j <= |s|
    ensures forall k :: i <= k < j ==> s[k] != stop
    ensures j < |s| ==> s[j] == stop
    decreases |s| - i
  {
    if i == |s| || s[i] == stop then i else RunUntil(s, i + 1, stop)
  }

  /** A run free of `stop` that ends at a `stop` is exactly the maximal run. */
  lemma RunUntilAt(s: string, i: nat, j: nat, stop: char)
    requires i <= j < |s|
    requires forall k :: i <= k < j ==> s[k] != stop
    requires s[j] == stop
    ensures RunUntil(s, i, stop) == j
  {
  }

  /** The same, for a run given as the text `t` found at `i`. */
  lemma RunUntilOver(s: string, i: nat, t: string, stop: char)
    requires i + |t| < |s| && s[i..i + |t|] == t && Lacks(t, stop) && s[i + |t|] == stop
    ensures RunUntil(s, i, stop) == i + |t|
  {
    forall k | i <= k < i + |t| ensures s[k] != stop {
      assert s[k] == t[k - i];
    }
    RunUntilAt(s, i, i + |t|, stop);
  }

  /** The tail both patterns share, tried at `i`: a maximal run free of
      `]` (the bracket text), `](`, a non-empty maximal run free of `)`
      (the url), and `)`. */
  function BracketsFrom(s: string, i: nat): (r: Option<(string, string)>)
    requires i <= |s|
    ensures r.Some? ==> i + |r.value.0| + |r.value.1| + 3 <= |s|
  {
    var a := RunUntil(s, i, ']');
    if a + 1 < |s| && s[a + 1] == '(' then
      var u := RunUntil(s, a + 2, ')');
      if a + 2 < u < |s| then Some((s[i..a], s[a + 2..u])) else None
    else None
  }

  /** What `BracketsFrom` finds is laid out at `i` and has the shape the
      patterns demand. */
  lemma BracketsFromSome(s: string, i: nat)
    requires i <= |s| && BracketsFrom(s, i).Some?
    ensures var (text, url) := BracketsFrom(s, i).value;
            BracketsAt(s, i, text, url)
  {
    var a := RunUntil(s, i, ']');
    var u := RunUntil(s, a + 2, ')');
  }

  /** Where the shared tail is laid out at `i`, `BracketsFrom` finds it. */
  lemma BracketsFromFinds(s: string, i: nat, text: string, url: string)
    requires BracketsAt(s, i, text, url)
    ensures BracketsFrom(s, i) == Some((text, url))
  {
    RunUntilOver(s, i, text, ']');
    RunUntilOver(s, i + |text| + 2, url, ')');
  }

  /** The image pattern tried at position `p`. */
  function ImageAt(s: string, p: nat): (r: Option<Match>)
    ensures r.Some? ==> r.value.start == p < r.value.end <= |s|
  {
    if p + 1 < |s| && s[p] == '!' && s[p + 1] == '[' then
      match BracketsFrom(s, p + 2)
      case Some((text, url)) => Some(Match(p, p + |text| + |url| + 5, text, url))
      case None => None
    else None
  }

  /** The link pattern tried at position `p`; the anchor must be non-empty. */
  function LinkAt(s: string, p: nat): (r: Option<Match>)
    ensures r.Some? ==> r.value.start == p < r.value.end <= |s|
  {
    if p < |s| && s[p] == '[' && (p == 0 || s[p - 1] != '!') then
      match BracketsFrom(s, p + 1)
      case Some((text, url)) =>
        if text != [] then Some(Match(p, p + |text| + |url| + 4, text, url)) else None
      case None => None
    else None
  }

  /** What the image scanner finds at `p` is a match of the pattern. */
  lemma ImageAtMatch(s: string, p: nat)
    requires ImageAt(s, p).Some?
    ensures IsImageMatch(s, ImageAt(s, p).value)
  {
    BracketsFromSome(s, p + 2);
  }

  /** What the link scanner finds at `p` is a match of the pattern. */
  lemma LinkAtMatch(s: string, p: nat)
    requires LinkAt(s, p).Some?
    ensures IsLinkMatch(s, LinkAt(s, p).value)
  {
    BracketsFromSome(s, p + 1);
  }

  /** Where the image pattern matches, the scanner finds that match. */
  lemma ImageAtFinds(s: string, m: Match)
    requires IsImageMatch(s, m)
    ensures ImageAt(s, m.start) == Some(m)
  {
    BracketsFromFinds(s, m.start + 2, m.text, m.url);
  }

  /** Where the link pattern matches, the scanner finds that match. */
  lemma LinkAtFinds(s: string, m: Match)
    requires IsLinkMatch(s, m)
    ensures LinkAt(s, m.start) == Some(m)
  {
    BracketsFromFinds(s, m.start + 1, m.text, m.url);
  }

  /** The scanner finds an image at `p` exactly when the pattern matches
      there: it neither invents nor misses a match. */
  lemma ImageAtIff(s: string, p: nat, m: Match)
    ensures ImageAt(s, p) == Some(m) <==> IsImageMatch(s, m) && m.start == p
  {
    if ImageAt(s, p) == Some(m) {
      ImageAtMatch(s, p);
    }
    if IsImageMatch(s, m) && m.start == p {
      ImageAtFinds(s, m);
    }
  }

  /** The same for links. */
  lemma LinkAtIff(s: string, p: nat, m: Match)
    ensures LinkAt(s, p) == Some(m) <==> IsLinkMatch(s, m) && m.start == p
  {
    if LinkAt(s, p) == Some(m) {
      LinkAtMatch(s, p);
    }
    if IsLinkMatch(s, m) && m.start == p {
      LinkAtFinds(s, m);
    }
  }

  /** `at` tries a pattern at one position of a text of length `len`: a hit
      at `q` starts at `q` and ends after it, within the text. */
  predicate Advances(len: nat, at: nat -> Option<Match>) {
    forall q: nat :: q < len && at(q).Some? ==> q == at(q).value.start < at(q).value.end <= len
  }

  /** `re.finditer` from position `p`, for the pattern tried by `at`: try
      at `p`; after a hit resume at its end, otherwise one position on. */
  function Scan(len: nat, p: nat, at: nat -> Option<Match>): seq<Match>
    requires p <= len && Advances(len, at)
    decreases len - p
  {
    if p == len then []
    else
      match at(p)
      case Some(m) => [m] + Scan(len, m.end, at)
      case None => Scan(len, p + 1, at)
  }

  /** The i-th reported match is what `at` finds at its start, at or after
      `p`, and the next one starts at or after its end. */
  lemma {:induction false} ScanSound(len: nat, p: nat, at: nat -> Option<Match>, i: nat)
    requires p <= len && Advances(len, at) && i < |Scan(len, p, at)|
    ensures var ms := Scan(len, p, at);
            && at(ms[i].start) == Some(ms[i]) && p <= ms[i].start < ms[i].end <= len
            && (i + 1 < |ms| ==> ms[i].end <= ms[i + 1].start)
    decreases len - p
  {
    match at(p)
    case Some(m) =>
      var rest := Scan(len, m.end, at);
      assert Scan(len, p, at) == [m] + rest;
      if i == 0 {
        if 0 < |rest| {
          ScanSound(len, m.end, at, 0);
        }
      } else {
        ScanSound(len, m.end, at, i - 1);
      }
    case None =>
      ScanSound(len, p + 1, at, i);
  }

  /** No match is skipped: every position from `p` on where `at` hits is
      the start of, or lies inside, a reported match. */
  lemma {:induction false} ScanCovers(len: nat, p: nat, at: nat -> Option<Match>, q: nat)
    requires p <= q < len && Advances(len, at) && at(q).Some?
    ensures exists i :: 0 <= i < |Scan(len, p, at)| && Scan(len, p, at)[i].start <= q < Scan(len, p, at)[i].end
    decreases len - p
  {
    var ms := Scan(len, p, at);
    match at(p)
    case Some(m) =>
      if q < m.end {
        assert ms[0] == m;
      } else {
        ScanCovers(len, m.end, at, q);
        var rest := Scan(len, m.end, at);
        var i :| 0 <= i < |rest| && rest[i].start <= q < rest[i].end;
        assert ms[i + 1] == rest[i];
      }
    case None =>
      ScanCovers(len, p + 1, at, q);
      var rest := Scan(len, p + 1, at);
      assert ms == rest;
      var i :| 0 <= i < |rest| && rest[i].start <= q < rest[i].end;
      assert ms[i] == rest[i];
  }

  function ImageTry(s: string): nat -> Option<Match> {
    (q: nat) => ImageAt(s, q)
  }

  function LinkTry(s: string): nat -> Option<Match> {
    (q: nat) => LinkAt(s, q)
  }

  /** `re.finditer` for the image pattern over `s`. */
  function ScanImages(s: string): seq<Match> {
    Scan(|s|, 0, ImageTry(s))
  }

  /** `re.finditer` for the link pattern over `s`. */
  function ScanLinks(s: string): seq<Match> {
    Scan(|s|, 0, LinkTry(s))
  }

  /** The i-th reported image is a match of the pattern, and the next one
      starts at or after its end. */
  lemma ScanImagesSound(s: string, i: nat)
    requires i < |ScanImages(s)|
    ensures var ms := ScanImages(s);
            && IsImageMatch(s, ms[i]) && ms[i].start < ms[i].end
            && (i + 1 < |ms| ==> ms[i].end <= ms[i + 1].start)
  {
    ScanSound(|s|, 0, ImageTry(s), i);
    ImageAtMatch(s, ScanImages(s)[i].start);
  }

  /** The i-th reported link is a match of the pattern, and the next one
      starts at or after its end. */
  lemma ScanLinksSound(s: string, i: nat)
    requires i < |ScanLinks(s)|
    ensures var ms := ScanLinks(s);
            && IsLinkMatch(s, ms[i]) && ms[i].start < ms[i].end
            && (i + 1 < |ms| ==> ms[i].end <= ms[i + 1].start)
  {
    ScanSound(|s|, 0, LinkTry(s), i);
    LinkAtMatch(s, ScanLinks(s)[i].start);
  }

  // ---------------------------------------------------------------------
  // extract_markdown_images and extract_markdown_links
  // ---------------------------------------------------------------------

  function Pairs(ms: seq<Match>): (pairs: seq<(string, string)>)
    ensures |pairs| == |ms|
    ensures forall i :: 0 <= i < |ms| ==> pairs[i] == (ms[i].text, ms[i].url)
  {
    seq(|ms|, i requires 0 <= i < |ms| => (ms[i].text, ms[i].url))
  }

  /** `extract_markdown_images`: the (alt, url) pairs of the image matches
      in order; `None` (Python's `None`) gives no pairs. */
  function ExtractMarkdownImages(text: Option<string>): (pairs: seq<(string, string)>)
    ensures text.None? ==> pairs == []
  {
    match text
    case None => []
    case Some(s) => Pairs(ScanImages(s))
  }

  /** `extract_markdown_links`: the (anchor, url) pairs of the link matches
      in order; `None` gives no pairs. */
  function ExtractMarkdownLinks(text: Option<string>): (pairs: seq<(string, string)>)
    ensures text.None? ==> pairs == []
  {
    match text
    case None => []
    case Some(s) => Pairs(ScanLinks(s))
  }

  /** Every alt is free of `]` (it may be empty); every url is non-empty and
      free of `)`. */
  lemma ImagePairsShape(s: string)
    ensures var pairs := ExtractMarkdownImages(Some(s));
            forall i :: 0 <= i < |pairs| ==> Lacks(pairs[i].0, ']') && pairs[i].1 != [] && Lacks(pairs[i].1, ')')
  {
    var ms := ScanImages(s);
    forall i | 0 <= i < |ms| ensures IsImageMatch(s, ms[i]) {
      ScanImagesSound(s, i);
    }
  }

  /** Every anchor is non-empty and free of `]`; every url is non-empty and
      free of `)`. */
  lemma LinkPairsShape(s: string)
    ensures var pairs := ExtractMarkdownLinks(Some(s));
            forall i :: 0 <= i < |pairs| ==> pairs[i].0 != [] && Lacks(pairs[i].0, ']') && pairs[i].1 != [] && Lacks(pairs[i].1, ')')
  {
    var ms := ScanLinks(s);
    forall i | 0 <= i < |ms| ensures IsLinkMatch(s, ms[i]) {
      ScanLinksSound(s, i);
    }
  }

  /** Reassembling an extracted pair as image syntax gives text that occurs
      in the input. */
  lemma ImagesOccurInText(s: string)
    ensures forall pair :: pair in ExtractMarkdownImages(Some(s)) ==> Contains(s, ImageSyntax(pair.0, pair.1))
  {
    var ms := ScanImages(s);
    forall pair | pair in ExtractMarkdownImages(Some(s))
      ensures Contains(s, ImageSyntax(pair.0, pair.1))
    {
      var i :| 0 <= i < |ms| && Pairs(ms)[i] == pair;
      ScanImagesSound(s, i);
      ImageMatchSyntax(s, ms[i]);
      assert OccursAt(s, ImageSyntax(pair.0, pair.1), ms[i].start);
    }
  }

  /** Reassembling an extracted pair as link syntax gives text that occurs
      in the input. */
  lemma LinksOccurInText(s: string)
    ensures forall pair :: pair in ExtractMarkdownLinks(Some(s)) ==> Contains(s, LinkSyntax(pair.0, pair.1))
  {
    var ms := ScanLinks(s);
    forall pair | pair in ExtractMarkdownLinks(Some(s))
      ensures Contains(s, LinkSyntax(pair.0, pair.1))
    {
      var i :| 0 <= i < |ms| && Pairs(ms)[i] == pair;
      ScanLinksSound(s, i);
      LinkMatchSyntax(s, ms[i]);
      assert OccursAt(s, LinkSyntax(pair.0, pair.1), ms[i].start);
    }
  }

  /** There are no image pairs exactly when the image pattern matches
      nowhere in the text. */
  lemma NoImagesIff(s: string)
    ensures ExtractMarkdownImages(Some(s)) == [] <==> forall m :: !IsImageMatch(s, m)
  {
    var ms := ScanImages(s);
    if ms == [] {
      forall m ensures !IsImageMatch(s, m) {
        if IsImageMatch(s, m) {
          ImageAtIff(s, m.start, m);
          ScanCovers(|s|, 0, ImageTry(s), m.start);
        }
      }
    } else {
      ScanImagesSound(s, 0);
      assert IsImageMatch(s, ms[0]);
    }
  }

  /** There are no link pairs exactly when the link pattern matches nowhere
      in the text. */
  lemma NoLinksIff(s: string)
    ensures ExtractMarkdownLinks(Some(s)) == [] <==> forall m :: !IsLinkMatch(s, m)
  {
    var ms := ScanLinks(s);
    if ms == [] {
      forall m ensures !IsLinkMatch(s, m) {
        if IsLinkMatch(s, m) {
          LinkAtIff(s, m.start, m);
          ScanCovers(|s|, 0, LinkTry(s), m.start);
        }
      }
    } else {
      ScanLinksSound(s, 0);
      assert IsLinkMatch(s, ms[0]);
    }
  }

  /** Text without a `[` holds neither image nor link syntax. */
  lemma NoBracketNoMatches(s: string)
    requires Lacks(s, '[')
    ensures ExtractMarkdownImages(Some(s)) == []
    ensures ExtractMarkdownLinks(Some(s)) == []
  {
    NoImagesIff(s);
    NoLinksIff(s);
  }

  /** Image syntax whose alt and url hold no `[` yields no link: its only
      `[` follows the `!`. */
  lemma ImageSyntaxIsNoLink(alt: string, url: string)
    requires Lacks(alt, '[') && Lacks(url, '[')
    ensures ExtractMarkdownLinks(Some(ImageSyntax(alt, url))) == []
  {
    var s := ImageSyntax(alt, url);
    NoLinksIff(s);
    forall m ensures !IsLinkMatch(s, m) {
      if m.start < |s| && s[m.start] == '[' {
        OnlyBracketAfterBang(alt, url, m.start);
      }
    }
  }

  lemma OnlyBracketAfterBang(alt: string, url: string, q: nat)
    requires Lacks(alt, '[') && Lacks(url, '[')
    requires q < |ImageSyntax(alt, url)| && ImageSyntax(alt, url)[q] == '['
    ensures q == 1
  {
  }
}

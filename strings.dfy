/** The Python `str` operations the converter relies on, over `seq<char>`.
    Whitespace is the set that `str.strip()` and `str.split()` remove, the
    characters for which `str.isspace()` holds; digits are the ASCII digits
    '0'..'9'. */
module Strings {
  import opened Results

  // ---------------------------------------------------------------------
  // Occurrences of a separator: one definition shared by find, count and split
  // ---------------------------------------------------------------------

  /** `sep` occurs in `s` starting at index `i`. */
  predicate OccursAt(s: string, sep: string, i: nat) {
    i + |sep| <= |s| && s[i..i + |sep|] == sep
  }

  /** `sep` occurs nowhere in `s`. */
  predicate Absent(s: string, sep: string) {
    forall k: nat :: k <= |s| ==> !OccursAt(s, sep, k)
  }

  /** The leftmost occurrence of `sep` in `s` (Python `s.find(sep)`, with
      `None` for -1); `FindSpec` states what it finds. */
  function Find(s: string, sep: string): (r: Option<nat>)
    ensures r.Some? ==> r.value + |sep| <= |s|
    decreases |s|
  {
    if |s| < |sep| then None
    else if s[..|sep|] == sep then Some(0)
    else
      match Find(s[1..], sep)
      case None => None
      case Some(j) => Some(j + 1)
  }

  /** `Find` reports an occurrence with none before it, and reports none
      exactly when `sep` is absent. */
  lemma {:induction false} FindSpec(s: string, sep: string)
    ensures Find(s, sep).Some? ==> OccursAt(s, sep, Find(s, sep).value)
    ensures Find(s, sep).Some? ==> forall k: nat :: k < Find(s, sep).value ==> !OccursAt(s, sep, k)
    ensures Find(s, sep).None? <==> Absent(s, sep)
    decreases |s|
  {
    if |s| >= |sep| && s[..|sep|] != sep {
      FindSpec(s[1..], sep);
      forall k: nat | 0 < k && k + |sep| <= |s|
        ensures OccursAt(s, sep, k) <==> OccursAt(s[1..], sep, k - 1)
      {
        assert s[1..][k - 1..k - 1 + |sep|] == s[k..k + |sep|];
      }
    }
  }

  /** The first occurrence is at `k` whenever `sep` occurs at `k` and at no
      earlier index. */
  lemma FindAt(s: string, sep: string, k: nat)
    requires OccursAt(s, sep, k)
    requires forall j: nat :: j < k ==> !OccursAt(s, sep, j)
    ensures Find(s, sep) == Some(k)
  {
    FindSpec(s, sep);
  }

  /** The text before the first occurrence holds no occurrence. */
  lemma PrefixAbsent(s: string, sep: string, j: nat)
    requires |sep| > 0 && j <= |s|
    requires forall k: nat :: k < j ==> !OccursAt(s, sep, k)
    ensures Absent(s[..j], sep)
  {
    forall k: nat | k <= j
      ensures !OccursAt(s[..j], sep, k)
    {
      if OccursAt(s[..j], sep, k) {
        assert s[..j][k..k + |sep|] == s[k..k + |sep|];
        assert OccursAt(s, sep, k) && k < j;
      }
    }
  }

  /** An occurrence at or after `from` is an occurrence in `s[from..]`. */
  lemma OccursInSuffix(s: string, sep: string, from: nat, at: nat)
    requires from <= at && OccursAt(s, sep, at)
    ensures OccursAt(s[from..], sep, at - from)
  {
    assert s[from..][at - from..at - from + |sep|] == s[at..at + |sep|];
  }

  /** An occurrence at `j` cuts `s` into the text before, the separator and
      the text after. */
  lemma SplitAround(s: string, sep: string, j: nat)
    requires OccursAt(s, sep, j)
    ensures s == s[..j] + sep + s[j + |sep|..]
  {
    assert s == s[..j] + s[j..j + |sep|] + s[j + |sep|..];
  }

  /** Python `s.count(sep)` for a non-empty `sep`: non-overlapping
      occurrences, scanning left to right. */
  function Count(s: string, sep: string): nat
    requires |sep| > 0
    decreases |s|
  {
    match Find(s, sep)
    case None => 0
    case Some(j) => 1 + Count(s[j + |sep|..], sep)
  }

  /** No separator is counted exactly when there is none. */
  lemma CountZero(s: string, sep: string)
    requires |sep| > 0
    ensures Count(s, sep) == 0 <==> Absent(s, sep)
  {
    FindSpec(s, sep);
  }

  /** Python `s.split(sep)` for a non-empty `sep`: the pieces between the
      same non-overlapping occurrences that `Count` counts. */
  function Split(s: string, sep: string): (parts: seq<string>)
    requires |sep| > 0
    ensures |parts| >= 1
    decreases |s|
  {
    match Find(s, sep)
    case None => [s]
    case Some(j) => [s[..j]] + Split(s[j + |sep|..], sep)
  }

  /** No piece holds the separator. */
  lemma {:induction false} SplitAbsent(s: string, sep: string)
    requires |sep| > 0
    ensures forall i :: 0 <= i < |Split(s, sep)| ==> Absent(Split(s, sep)[i], sep)
    decreases |s|
  {
    FindSpec(s, sep);
    match Find(s, sep)
    case None =>
    case Some(j) =>
      var rest := s[j + |sep|..];
      SplitAbsent(rest, sep);
      PrefixAbsent(s, sep, j);
      SplitFound(s, sep, j);
      var parts := Split(s, sep);
      forall i | 0 <= i < |parts| ensures Absent(parts[i], sep) {
        if i > 0 {
          assert parts[i] == Split(rest, sep)[i - 1];
        }
      }
  }

  /** Python `sep.join(parts)`. */
  function Join(parts: seq<string>, sep: string): string
    decreases |parts|
  {
    if |parts| == 0 then ""
    else if |parts| == 1 then parts[0]
    else parts[0] + sep + Join(parts[1..], sep)
  }

  /** The concatenation of `parts` (Python `"".join(parts)` on strings). */
  function Concat<T>(parts: seq<seq<T>>): seq<T>
    decreases |parts|
  {
    if parts == [] then [] else parts[0] + Concat(parts[1..])
  }

  /** `s` with every occurrence of `sep` removed (Python `s.replace(sep, "")`). */
  function RemoveAll(s: string, sep: string): string
    requires |sep| > 0
    decreases |s|
  {
    match Find(s, sep)
    case None => s
    case Some(j) => s[..j] + RemoveAll(s[j + |sep|..], sep)
  }

  /** `str.split` makes exactly one more piece than `str.count` finds
      separators. */
  lemma {:induction false} SplitCount(s: string, sep: string)
    requires |sep| > 0
    ensures |Split(s, sep)| == Count(s, sep) + 1
    decreases |s|
  {
    match Find(s, sep)
    case None =>
    case Some(j) => SplitCount(s[j + |sep|..], sep);
  }

  /** Joining the pieces back with the separator gives the input again. */
  lemma {:induction false} JoinSplit(s: string, sep: string)
    requires |sep| > 0
    ensures Join(Split(s, sep), sep) == s
    decreases |s|
  {
    FindSpec(s, sep);
    match Find(s, sep)
    case None =>
    case Some(j) =>
      var rest := s[j + |sep|..];
      JoinSplit(rest, sep);
      SplitFound(s, sep, j);
      JoinCons(s[..j], Split(rest, sep), sep);
      SplitAround(s, sep, j);
  }

  /** Where the first separator is at `j`, the pieces are the text before
      it followed by the pieces of the text after it. */
  lemma SplitFound(s: string, sep: string, j: nat)
    requires |sep| > 0 && Find(s, sep) == Some(j)
    ensures Split(s, sep) == [s[..j]] + Split(s[j + |sep|..], sep)
  {
  }

  /** Without a separator, `split` gives the whole string as its one piece. */
  lemma SplitWhole(s: string, sep: string)
    requires |sep| > 0 && Absent(s, sep)
    ensures Split(s, sep) == [s]
  {
    FindSpec(s, sep);
  }

  /** An occurrence that ends by `m` is an occurrence in `s[..m]`. */
  lemma OccursInPrefix(s: string, sep: string, m: nat, k: nat)
    requires k + |sep| <= m <= |s| && OccursAt(s, sep, k)
    ensures OccursAt(s[..m], sep, k)
  {
    assert s[..m][k..k + |sep|] == s[k..k + |sep|];
  }

  /** In `p + sep + rest`, the first separator is the one after `p` when
      no separator starts inside `p`, not even one that runs into the
      joining separator. */
  lemma FindAfterPart(p: string, sep: string, rest: string)
    requires |sep| > 0 && Absent(p + sep[..|sep| - 1], sep)
    ensures Find(p + sep + rest, sep) == Some(|p|)
  {
    var s := p + sep + rest;
    var m := |p| + |sep| - 1;
    assert s[..m] == p + sep[..|sep| - 1];
    assert s[|p|..|p| + |sep|] == sep;
    forall k: nat | k < |p| ensures !OccursAt(s, sep, k) {
      if OccursAt(s, sep, k) {
        OccursInPrefix(s, sep, m, k);
      }
    }
    FindAt(s, sep, |p|);
  }

  /** A prefix of a string without `sep` has no `sep` either. */
  lemma AbsentPrefix(s: string, sep: string, m: nat)
    requires m <= |s| && Absent(s, sep)
    ensures Absent(s[..m], sep)
  {
    forall k: nat | k <= m ensures !OccursAt(s[..m], sep, k) {
      assert !OccursAt(s, sep, k);
      if k + |sep| <= m {
        assert s[..m][k..k + |sep|] == s[k..k + |sep|];
      }
    }
  }

  /** Splitting a join gives the parts back, provided no separator starts
      inside a part, not even one that runs into the joining separator. */
  lemma {:induction false} SplitJoin(parts: seq<string>, sep: string)
    requires |sep| > 0 && parts != []
    requires forall i :: 0 <= i < |parts| ==> Absent(parts[i] + sep[..|sep| - 1], sep)
    ensures Split(Join(parts, sep), sep) == parts
    decreases |parts|
  {
    var p := parts[0];
    if |parts| == 1 {
      assert (p + sep[..|sep| - 1])[..|p|] == p;
      AbsentPrefix(p + sep[..|sep| - 1], sep, |p|);
      SplitWhole(p, sep);
    } else {
      var rest := Join(parts[1..], sep);
      SplitJoin(parts[1..], sep);
      JoinCons(p, parts[1..], sep);
      assert parts == [p] + parts[1..];
      assert Join(parts, sep) == p + sep + rest;
      FindAfterPart(p, sep, rest);
      assert (p + sep + rest)[..|p|] == p;
      assert (p + sep + rest)[|p| + |sep|..] == rest;
      SplitFound(p + sep + rest, sep, |p|);
    }
  }

  lemma JoinCons(head: string, tail: seq<string>, sep: string)
    requires tail != []
    ensures Join([head] + tail, sep) == head + sep + Join(tail, sep)
  {
    assert ([head] + tail)[1..] == tail;
  }

  /** Concatenating the pieces gives the input with every separator removed. */
  lemma {:induction false} ConcatSplit(s: string, sep: string)
    requires |sep| > 0
    ensures Concat(Split(s, sep)) == RemoveAll(s, sep)
    decreases |s|
  {
    match Find(s, sep)
    case None =>
    case Some(j) =>
      var rest := s[j + |sep|..];
      ConcatSplit(rest, sep);
      var tail := Split(rest, sep);
      assert Split(s, sep) == [s[..j]] + tail;
      assert ([s[..j]] + tail)[1..] == tail;
  }

  /** The concatenation of the parts is that of all but the last, then the
      last. */
  lemma ConcatLast<T>(parts: seq<seq<T>>)
    requires parts != []
    ensures Concat(parts) == Concat(parts[..|parts| - 1]) + parts[|parts| - 1]
  {
    var n := |parts| - 1;
    assert parts[..n] + [parts[n]] == parts;
    ConcatAppend(parts[..n], [parts[n]]);
    assert Concat([parts[n]]) == parts[n] + Concat([]);
  }

  /** `Concat` distributes over sequence concatenation. */
  lemma {:induction false} ConcatAppend<T>(a: seq<seq<T>>, b: seq<seq<T>>)
    ensures Concat(a + b) == Concat(a) + Concat(b)
    decreases |a|
  {
    if a == [] {
      assert a + b == b;
    } else {
      ConcatAppend(a[1..], b);
      assert (a + b)[1..] == a[1..] + b;
    }
  }

  /** Python `s.split(sep, 1)`: cut at the first occurrence only. What the
      two parts are is stated by `SplitOnceParts`. */
  function SplitOnce(s: string, sep: string): (parts: seq<string>)
    requires |sep| > 0
    ensures 1 <= |parts| <= 2
  {
    match Find(s, sep)
    case None => [s]
    case Some(j) => [s[..j], s[j + |sep|..]]
  }

  /** One part, the whole string, when `sep` does not occur; otherwise the
      text before its first occurrence (which holds no `sep`) and the text
      after it. */
  lemma SplitOnceParts(s: string, sep: string)
    requires |sep| > 0
    ensures var parts := SplitOnce(s, sep);
            && (|parts| == 1 <==> Absent(s, sep))
            && (|parts| == 1 ==> parts[0] == s)
            && (|parts| == 2 ==> parts[0] + sep + parts[1] == s && Absent(parts[0], sep))
  {
    FindSpec(s, sep);
    match Find(s, sep)
    case None =>
    case Some(j) =>
      SplitAround(s, sep, j);
      PrefixAbsent(s, sep, j);
  }

  // ---------------------------------------------------------------------
  // Prefixes, suffixes and Python slices
  // ---------------------------------------------------------------------

  /** Python `s.startswith(p)`. */
  predicate StartsWith(s: string, p: string) {
    |p| <= |s| && s[..|p|] == p
  }

  /** Python `s.endswith(p)`. */
  predicate EndsWith(s: string, p: string) {
    |p| <= |s| && s[|s| - |p|..] == p
  }

  /** A Python slice bound: a negative bound counts from the end, and the
      result is clamped to `0..len`. */
  function SliceBound(i: int, len: nat): (b: nat)
    ensures b <= len
  {
    if i < 0 then (if i + len < 0 then 0 else i + len)
    else if i > len then len
    else i
  }

  /** Python `s[i:j]`, which never fails: out-of-range bounds clamp and a
      crossed range is empty. */
  function Slice(s: string, i: int, j: int): (r: string)
    ensures |r| <= |s|
  {
    var a := SliceBound(i, |s|);
    var b := SliceBound(j, |s|);
    if a < b then s[a..b] else ""
  }

  /** Python `s[i:]`. */
  function Drop(s: string, i: int): (r: string)
    ensures i >= 0 ==> |r| == if i <= |s| then |s| - i else 0
    ensures 0 <= i <= |s| ==> s == s[..i] + r
  {
    Slice(s, i, |s|)
  }

  // ---------------------------------------------------------------------
  // Whitespace: str.strip() and str.split() without arguments
  // ---------------------------------------------------------------------

  predicate IsSpace(c: char) {
    ('\t' <= c <= '\r') || ('\U{001C}' <= c <= ' ') || c == '\U{0085}' || c == '\U{00A0}'
    || c == '\U{1680}' || ('\U{2000}' <= c <= '\U{200A}') || c == '\U{2028}' || c == '\U{2029}'
    || c == '\U{202F}' || c == '\U{205F}' || c == '\U{3000}'
  }

  predicate AllSpace(s: string) {
    forall k :: 0 <= k < |s| ==> IsSpace(s[k])
  }

  /** Length of the run of whitespace at the start of `s`. */
  function LeadingSpaces(s: string): (n: nat)
    ensures n <= |s| && AllSpace(s[..n])
    ensures n < |s| ==> !IsSpace(s[n])
    decreases |s|
  {
    if s == [] || !IsSpace(s[0]) then 0
    else
      var n := 1 + LeadingSpaces(s[1..]);
      assert forall k :: 1 <= k < n ==> s[..n][k] == s[1..][..n - 1][k - 1];
      n
  }

  /** Length of the run of whitespace at the end of `s`. */
  function TrailingSpaces(s: string): (n: nat)
    ensures n <= |s| && AllSpace(s[|s| - n..])
    ensures n < |s| ==> !IsSpace(s[|s| - n - 1])
    decreases |s|
  {
    if s == [] || !IsSpace(s[|s| - 1]) then 0
    else
      var init := s[..|s| - 1];
      var n := 1 + TrailingSpaces(init);
      assert s[|s| - n..] == init[|init| - (n - 1)..] + [s[|s| - 1]];
      n
  }

  /** Python `s.strip()`: `s` with its leading and trailing whitespace cut
      off; `StripSpec` states what is left. */
  function Strip(s: string): (r: string)
    ensures |r| <= |s|
  {
    var i := LeadingSpaces(s);
    var t := s[i..];
    t[..|t| - TrailingSpaces(t)]
  }

  /** The stripped text is a slice of `s` around which there is only
      whitespace; it neither starts nor ends with whitespace, and it is
      empty exactly when `s` is all whitespace. */
  lemma StripSpec(s: string)
    ensures exists i, j :: 0 <= i <= j <= |s| && Strip(s) == s[i..j] && AllSpace(s[..i]) && AllSpace(s[j..])
    ensures Strip(s) != [] ==> !IsSpace(Strip(s)[0]) && !IsSpace(Strip(s)[|Strip(s)| - 1])
    ensures Strip(s) == [] <==> AllSpace(s)
  {
    var i := LeadingSpaces(s);
    var t := s[i..];
    var n := TrailingSpaces(t);
    var j := |s| - n;
    assert Strip(s) == s[i..j] by {
      assert t[..|t| - n] == s[i..j];
    }
    assert AllSpace(s[j..]) by {
      assert s[j..] == t[|t| - n..];
    }
    if Strip(s) != [] {
      assert Strip(s)[0] == s[i];
      assert Strip(s)[|Strip(s)| - 1] == t[|t| - n - 1];
    }
    StripEmpty(s, i, j);
  }

  /** A slice with only whitespace around it is empty exactly when the
      whole string is whitespace, provided it starts at the first character
      that is not whitespace. */
  lemma StripEmpty(s: string, i: nat, j: nat)
    requires i <= j <= |s| && AllSpace(s[..i]) && AllSpace(s[j..])
    requires i < |s| ==> !IsSpace(s[i])
    ensures s[i..j] == [] <==> AllSpace(s)
  {
    if i == j {
      assert s == s[..i] + s[j..];
      forall k | 0 <= k < |s| ensures IsSpace(s[k]) {
        assert s[k] == (s[..i] + s[j..])[k];
      }
    }
  }

  /** A string that neither starts nor ends with whitespace strips to itself. */
  lemma StripUnchanged(s: string)
    requires s != [] ==> !IsSpace(s[0]) && !IsSpace(s[|s| - 1])
    ensures Strip(s) == s
  {
  }

  /** Stripping twice is the same as stripping once. */
  lemma StripIdempotent(s: string)
    ensures Strip(Strip(s)) == Strip(s)
  {
    StripSpec(s);
    StripUnchanged(Strip(s));
  }

  /** Length of the run of non-whitespace at the start of `s`. */
  function WordLength(s: string): (n: nat)
    ensures n <= |s|
    ensures s != [] && !IsSpace(s[0]) ==> n > 0
    decreases |s|
  {
    if s == [] || IsSpace(s[0]) then 0 else 1 + WordLength(s[1..])
  }

  /** The run holds no whitespace. */
  lemma {:induction false} WordLengthSpec(s: string)
    ensures forall k :: 0 <= k < WordLength(s) ==> !IsSpace(s[k])
    decreases |s|
  {
    if s != [] && !IsSpace(s[0]) {
      WordLengthSpec(s[1..]);
      forall k | 1 <= k < WordLength(s) ensures s[k] == s[1..][k - 1] {
      }
    }
  }

  /** The run stops at whitespace or at the end. */
  lemma {:induction false} WordStop(s: string)
    ensures WordLength(s) < |s| ==> IsSpace(s[WordLength(s)])
    decreases |s|
  {
    if s != [] && !IsSpace(s[0]) {
      WordStop(s[1..]);
    }
  }

  /** Python `s.split()`: the maximal runs of non-whitespace, in order. */
  function Words(s: string): seq<string>
    decreases |s|
  {
    var i := LeadingSpaces(s);
    var t := s[i..];
    if t == [] then []
    else
      assert t[0] == s[i];
      var n := WordLength(t);
      [t[..n]] + Words(t[n..])
  }

  /** Every word is non-empty and holds no whitespace. */
  lemma {:induction false} WordsShape(s: string)
    ensures forall j :: 0 <= j < |Words(s)| ==> Words(s)[j] != [] && forall k :: 0 <= k < |Words(s)[j]| ==> !IsSpace(Words(s)[j][k])
    decreases |s|
  {
    var i := LeadingSpaces(s);
    var t := s[i..];
    if t != [] {
      assert t[0] == s[i];
      var n := WordLength(t);
      var w := t[..n];
      var rest := Words(t[n..]);
      WordLengthSpec(t);
      WordsShape(t[n..]);
      assert Words(s) == [w] + rest;
      forall j | 0 <= j < |Words(s)|
        ensures Words(s)[j] != [] && forall k :: 0 <= k < |Words(s)[j]| ==> !IsSpace(Words(s)[j][k])
      {
        if j > 0 {
          assert Words(s)[j] == rest[j - 1];
        } else {
          assert forall k :: 0 <= k < |w| ==> w[k] == t[k];
        }
      }
    }
  }

  /** The gaps and the words laid out alternately: gap, word, gap, ...,
      word, gap. */
  function Weave(gaps: seq<string>, ws: seq<string>): string
    requires |gaps| == |ws| + 1
    decreases |ws|
  {
    if ws == [] then gaps[0] else gaps[0] + ws[0] + Weave(gaps[1..], ws[1..])
  }

  /** The whitespace runs of `s` around its words: the one before the
      first word, those between words, and the one after the last. */
  function Gaps(s: string): seq<string>
    decreases |s|
  {
    var i := LeadingSpaces(s);
    var t := s[i..];
    if t == [] then [s]
    else [s[..i]] + Gaps(t[WordLength(t)..])
  }

  /** One word and the gap before it, then the rest of `s`. */
  lemma WordsGapsStep(s: string)
    requires s[LeadingSpaces(s)..] != []
    ensures var i := LeadingSpaces(s);
            var t := s[i..];
            var n := WordLength(t);
            && s == s[..i] + t[..n] + t[n..]
            && |t[n..]| < |s|
  {
    var i := LeadingSpaces(s);
    var t := s[i..];
    assert !IsSpace(t[0]);
    CutTwice(s, i, WordLength(t));
  }

  /** What follows the first word is shorter than `s`. */
  lemma WordsStepShorter(s: string)
    requires s[LeadingSpaces(s)..] != []
    ensures var t := s[LeadingSpaces(s)..];
            |t[WordLength(t)..]| < |s|
  {
    var t := s[LeadingSpaces(s)..];
    assert !IsSpace(t[0]);
  }

  /** A sequence cut at `i` and then `n` further on. */
  lemma CutTwice<T>(s: seq<T>, i: nat, n: nat)
    requires i + n <= |s|
    ensures s == s[..i] + s[i..][..n] + s[i..][n..]
  {
    assert s[i..] == s[i..][..n] + s[i..][n..];
    assert s == s[..i] + s[i..];
  }

  /** `s` is its words woven with its gaps, one more gap than words. */
  lemma {:induction false} WordsWeave(s: string)
    ensures |Gaps(s)| == |Words(s)| + 1
    ensures Weave(Gaps(s), Words(s)) == s
    decreases |s|
  {
    var i := LeadingSpaces(s);
    var t := s[i..];
    if t == [] {
      assert s[..i] == s;
    } else {
      var n := WordLength(t);
      var rest := t[n..];
      WordsGapsStep(s);
      WordsWeave(rest);
      var gs := Gaps(s);
      var ws := Words(s);
      assert gs == [s[..i]] + Gaps(rest);
      assert ws == [t[..n]] + Words(rest);
      assert gs[1..] == Gaps(rest) && ws[1..] == Words(rest);
      assert Weave(gs, ws) == s[..i] + t[..n] + Weave(Gaps(rest), Words(rest));
    }
  }

  /** One gap, and the gaps after the first word. */
  lemma GapsStep(s: string)
    requires s[LeadingSpaces(s)..] != []
    ensures var i := LeadingSpaces(s);
            var t := s[i..];
            var rest := t[WordLength(t)..];
            && Gaps(s) == [s[..i]] + Gaps(rest)
            && |rest| < |s|
            && (|Gaps(rest)| > 1 ==> Gaps(rest)[0] != [])
  {
    var t := s[LeadingSpaces(s)..];
    WordsStepShorter(s);
    WordStop(t);
    var rest := t[WordLength(t)..];
    if |Gaps(rest)| > 1 {
      GapsFirst(rest);
    }
  }

  /** Every gap is whitespace. */
  lemma {:induction false} GapsSpace(s: string)
    ensures forall k :: 0 <= k < |Gaps(s)| ==> AllSpace(Gaps(s)[k])
    decreases |s|
  {
    var i := LeadingSpaces(s);
    var t := s[i..];
    if t == [] {
      assert s[..i] == s;
    } else {
      var rest := t[WordLength(t)..];
      GapsStep(s);
      GapsSpace(rest);
      var gs := Gaps(rest);
      forall k | 0 <= k < |[s[..i]] + gs| ensures AllSpace(([s[..i]] + gs)[k]) {
        if k > 0 {
          assert ([s[..i]] + gs)[k] == gs[k - 1];
        }
      }
    }
  }

  /** Every gap between two words is non-empty. With `WordsWeave`,
      `GapsSpace` and `WordsShape` (each word non-empty and free of
      whitespace), the words are exactly the maximal runs of
      non-whitespace of `s`, in order. */
  lemma {:induction false} GapsBetweenWords(s: string)
    ensures forall k :: 0 < k < |Gaps(s)| - 1 ==> Gaps(s)[k] != []
    decreases |s|
  {
    var i := LeadingSpaces(s);
    var t := s[i..];
    if t != [] {
      var rest := t[WordLength(t)..];
      GapsStep(s);
      GapsBetweenWords(rest);
      InnerNonEmpty(s[..i], Gaps(rest));
    }
  }

  /** Putting a gap in front keeps the inner gaps non-empty when the old
      first gap becomes an inner one and is non-empty. */
  lemma InnerNonEmpty(g: string, gs: seq<string>)
    requires forall k :: 0 < k < |gs| - 1 ==> gs[k] != []
    requires |gs| > 1 ==> gs[0] != []
    ensures forall k :: 0 < k < |[g] + gs| - 1 ==> ([g] + gs)[k] != []
  {
    forall k | 0 < k < |[g] + gs| - 1 ensures ([g] + gs)[k] != [] {
      assert ([g] + gs)[k] == gs[k - 1];
    }
  }

  /** After a word, the first gap of the rest is non-empty unless it is
      the last one. */
  lemma GapsFirst(r: string)
    requires |Gaps(r)| > 1 && (r != [] ==> IsSpace(r[0]))
    ensures Gaps(r)[0] != []
  {
    assert r != [];
    assert LeadingSpaces(r) > 0;
  }

  /** A word followed by whitespace is read off as one word. */
  lemma {:induction false} WordLengthOf(w: string, rest: string)
    requires forall k :: 0 <= k < |w| ==> !IsSpace(w[k])
    requires rest == [] || IsSpace(rest[0])
    ensures WordLength(w + rest) == |w|
    decreases |w|
  {
    if w != [] {
      assert (w + rest)[1..] == w[1..] + rest;
      WordLengthOf(w[1..], rest);
    }
  }

  /** A word followed by whitespace or by nothing is the first word. */
  lemma WordsCons(w: string, tail: string)
    requires w != [] && forall k :: 0 <= k < |w| ==> !IsSpace(w[k])
    requires tail == [] || IsSpace(tail[0])
    ensures Words(w + tail) == [w] + Words(tail)
  {
    assert LeadingSpaces(w + tail) == 0 by {
      assert (w + tail)[0] == w[0];
    }
    assert (w + tail)[0..] == w + tail;
    WordLengthOf(w, tail);
    assert (w + tail)[..|w|] == w && (w + tail)[|w|..] == tail;
  }

  /** One space before a word does not change the words. */
  lemma WordsAfterSpace(rest: string)
    requires rest != [] && !IsSpace(rest[0])
    ensures Words(" " + rest) == Words(rest)
  {
    assert (" " + rest)[1..] == rest;
    assert LeadingSpaces(" " + rest) == 1;
  }

  /** The joined text starts with the first word. */
  lemma JoinStart(ws: seq<string>, sep: string)
    requires ws != [] && ws[0] != []
    ensures Join(ws, sep) != [] && Join(ws, sep)[0] == ws[0][0]
  {
  }

  /** Words joined by single spaces split back into those words. */
  lemma {:induction false} WordsOfJoin(ws: seq<string>)
    requires forall i :: 0 <= i < |ws| ==> ws[i] != [] && forall k :: 0 <= k < |ws[i]| ==> !IsSpace(ws[i][k])
    ensures Words(Join(ws, " ")) == ws
    decreases |ws|
  {
    if |ws| == 1 {
      WordsCons(ws[0], "");
      assert ws[0] + "" == ws[0];
    } else if |ws| > 1 {
      WordsOfJoin(ws[1..]);
      WordsOfJoinStep(ws);
    }
  }

  /** The step of `WordsOfJoin`: the first word, then the words of the
      rest of the join. */
  lemma WordsOfJoinStep(ws: seq<string>)
    requires |ws| > 1 && ws[0] != [] && ws[1] != []
    requires forall k :: 0 <= k < |ws[0]| ==> !IsSpace(ws[0][k])
    requires !IsSpace(ws[1][0])
    requires Words(Join(ws[1..], " ")) == ws[1..]
    ensures Words(Join(ws, " ")) == ws
  {
    var rest := " " + Join(ws[1..], " ");
    JoinAfterFirst(ws);
    WordsOfSpacedJoin(ws[1..]);
    WordsCons(ws[0], rest);
    assert ws == [ws[0]] + ws[1..];
  }

  /** A join of two or more parts is the first part, the separator and
      the join of the rest. */
  lemma JoinAfterFirst(ws: seq<string>)
    requires |ws| > 1
    ensures Join(ws, " ") == ws[0] + (" " + Join(ws[1..], " "))
  {
    JoinCons(ws[0], ws[1..], " ");
    assert ws == [ws[0]] + ws[1..];
  }

  /** A space before a join of words does not change its words. */
  lemma WordsOfSpacedJoin(ws: seq<string>)
    requires ws != [] && ws[0] != [] && !IsSpace(ws[0][0])
    ensures Words(" " + Join(ws, " ")) == Words(Join(ws, " "))
  {
    JoinStart(ws, " ");
    WordsAfterSpace(Join(ws, " "));
  }

  /** Collapsing whitespace keeps the words: the collapsed text has
      exactly the words of the original, in order. */
  lemma CollapseKeepsWords(s: string)
    ensures Words(CollapseSpaces(s)) == Words(s)
  {
    WordsShape(s);
    WordsOfJoin(Words(s));
  }

  /** Python `" ".join(s.split())`: every run of whitespace, newlines
      included, becomes one space, and none is left at either end. */
  function CollapseSpaces(s: string): (r: string)
  {
    Join(Words(s), " ")
  }

  /** The collapsed text holds no newline and no whitespace but single
      spaces between words, and none at either end. */
  lemma {:induction false} CollapseSpacesShape(ws: seq<string>)
    requires forall i :: 0 <= i < |ws| ==> ws[i] != [] && forall k :: 0 <= k < |ws[i]| ==> !IsSpace(ws[i][k])
    ensures var r := Join(ws, " ");
            && (forall k :: 0 <= k < |r| && IsSpace(r[k]) ==> r[k] == ' ')
            && (forall k :: 0 <= k < |r| - 1 && r[k] == ' ' ==> r[k + 1] != ' ')
            && (r != [] ==> r[0] != ' ' && r[|r| - 1] != ' ')
    decreases |ws|
  {
    if |ws| > 1 {
      CollapseSpacesShape(ws[1..]);
      var tail := Join(ws[1..], " ");
      var r := ws[0] + " " + tail;
      assert r == Join(ws, " ");
      forall k | 0 <= k < |r| && IsSpace(r[k]) ensures r[k] == ' ' {
        if k > |ws[0]| { assert r[k] == tail[k - |ws[0]| - 1]; }
      }
      forall k | 0 <= k < |r| - 1 && r[k] == ' ' ensures r[k + 1] != ' ' {
        if k > |ws[0]| { assert r[k] == tail[k - |ws[0]| - 1]; assert r[k + 1] == tail[k - |ws[0]|]; }
        else if k == |ws[0]| { assert r[k + 1] == tail[0]; }
      }
    }
  }

  // ---------------------------------------------------------------------
  // Decimal digits
  // ---------------------------------------------------------------------

  predicate IsDigit(c: char) {
    '0' <= c <= '9'
  }

  predicate AllDigits(s: string) {
    forall k :: 0 <= k < |s| ==> IsDigit(s[k])
  }

  /** Length of the run of digits at the start of `s`. */
  function LeadingDigits(s: string): (n: nat)
    ensures n <= |s| && AllDigits(s[..n])
    ensures n < |s| ==> !IsDigit(s[n])
    decreases |s|
  {
    if s == [] || !IsDigit(s[0]) then 0
    else
      var n := 1 + LeadingDigits(s[1..]);
      assert forall k :: 1 <= k < n ==> s[..n][k] == s[1..][..n - 1][k - 1];
      n
  }

  /** Python `int(ds)` for a string of ASCII digits: leading zeros are
      allowed and do not change the value. */
  function DecimalValue(ds: string): nat
    requires AllDigits(ds)
    decreases |ds|
  {
    if ds == [] then 0
    else DecimalValue(ds[..|ds| - 1]) * 10 + ((ds[|ds| - 1] as int) - ('0' as int))
  }

  /** Python `str(n)` for a natural number: its decimal digits, with no
      leading zero. */
  function DecimalString(n: nat): string
    decreases n
  {
    var digit := [('0' as int + n % 10) as char];
    if n < 10 then digit else DecimalString(n / 10) + digit
  }

  /** Reading the digits back gives the number. */
  lemma {:induction false} DecimalRoundTrip(n: nat)
    ensures AllDigits(DecimalString(n)) && DecimalValue(DecimalString(n)) == n
    decreases n
  {
    var s := DecimalString(n);
    if n >= 10 {
      DecimalRoundTrip(n / 10);
      assert s[..|s| - 1] == DecimalString(n / 10);
    }
  }
}

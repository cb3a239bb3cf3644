/**
 * DirectWriteFormatHelper.CreateFormatter: strips inline `__italic__` and
 * `**bold**` markup from a string and records, per removed pair, the text
 * range the style applies to.
 *
 * The pattern is `(__|\*\*)(.*?)\k<1>`: an opening delimiter, the shortest
 * run of characters other than a line feed, and the same delimiter again.
 * The regular-expression engine reports the leftmost match; at one position
 * at most one of the two delimiters can open, so the order of the
 * alternatives never matters.
 */
module FormatHelper {
  import opened Wrappers

  datatype Delimiter = Underscores | Asterisks

  /** The character a delimiter is made of, twice. */
  function Mark(d: Delimiter): char
  {
    match d
    case Underscores => '_'
    case Asterisks => '*'
  }

  /** A delimiter occupies positions `i` and `i + 1` of `s`. */
  predicate DelimiterAt(s: string, i: int, d: Delimiter)
  {
    0 <= i && i + 1 < |s| && s[i] == Mark(d) && s[i + 1] == Mark(d)
  }

  /** No line feed in `s[lo..hi]` (what `.` refuses to match). */
  predicate LineFree(s: string, lo: int, hi: int)
    requires 0 <= lo <= hi <= |s|
  {
    forall j :: lo <= j < hi ==> s[j] != '\n'
  }

  /**
   * The pattern matches at `i` with delimiter `d` and the closing delimiter at
   * `k`: the inner text `s[i + 2..k]` is line-free and is the shortest one, so
   * no closing delimiter starts earlier.
   */
  predicate PairAt(s: string, i: int, d: Delimiter, k: int)
  {
    && DelimiterAt(s, i, d)
    && i + 2 <= k
    && DelimiterAt(s, k, d)
    && LineFree(s, i + 2, k)
    && forall k' :: i + 2 <= k' < k ==> !DelimiterAt(s, k', d)
  }

  /** A match: where it starts, its delimiter and where its closing delimiter starts. */
  datatype Match = Match(index: nat, delim: Delimiter, close: nat)

  /** What the regular-expression engine reports: the leftmost match. */
  ghost predicate IsMatch(s: string, m: Match)
  {
    && PairAt(s, m.index, m.delim, m.close)
    && forall i, d, k :: 0 <= i < m.index ==> !PairAt(s, i, d, k)
  }

  /** The pattern matches nowhere in `s`. */
  ghost predicate NoMatch(s: string)
  {
    forall i, d, k :: !PairAt(s, i, d, k)
  }

  /**
   * The lazy scan for the closing delimiter of an opening one at `i`, having
   * already consumed `s[i + 2..j]`.
   */
  function CloseFrom(s: string, i: nat, d: Delimiter, j: nat): (r: Option<nat>)
    requires DelimiterAt(s, i, d) && i + 2 <= j <= |s|
    requires LineFree(s, i + 2, j)
    requires forall k' :: i + 2 <= k' < j ==> !DelimiterAt(s, k', d)
    ensures r.Some? ==> PairAt(s, i, d, r.value)
    ensures r.None? ==> forall k :: !PairAt(s, i, d, k)
    decreases |s| - j
  {
    if j + 1 >= |s| then None
    else if DelimiterAt(s, j, d) then Some(j)
    else if s[j] == '\n' then None
    else CloseFrom(s, i, d, j + 1)
  }

  /** The match starting exactly at `i`, if any. */
  function MatchAt(s: string, i: nat): (r: Option<Match>)
    ensures r.Some? ==> r.value.index == i && PairAt(s, i, r.value.delim, r.value.close)
    ensures r.None? ==> forall d, k :: !PairAt(s, i, d, k)
  {
    if DelimiterAt(s, i, Underscores) then
      match CloseFrom(s, i, Underscores, i + 2)
      case Some(k) => Some(Match(i, Underscores, k))
      case None => None
    else if DelimiterAt(s, i, Asterisks) then
      match CloseFrom(s, i, Asterisks, i + 2)
      case Some(k) => Some(Match(i, Asterisks, k))
      case None => None
    else None
  }

  /** The leftmost match at or after `i`, no match starting before `i`. */
  function FindFrom(s: string, i: nat): (r: Option<Match>)
    requires forall i', d, k :: 0 <= i' < i ==> !PairAt(s, i', d, k)
    ensures r.Some? ==> IsMatch(s, r.value)
    ensures r.None? ==> NoMatch(s)
    decreases |s| - i
  {
    if i >= |s| then None
    else match MatchAt(s, i)
      case Some(m) => Some(m)
      case None => FindFrom(s, i + 1)
  }

  /** `Regex.Match`: the leftmost match in `s`, or none. */
  function Find(s: string): (r: Option<Match>)
    ensures r.Some? ==> IsMatch(s, r.value)
    ensures r.None? <==> NoMatch(s)
  {
    FindFrom(s, 0)
  }

  /** The match replaced by its inner text. */
  function Replace(s: string, m: Match): (r: string)
    requires PairAt(s, m.index, m.delim, m.close)
    ensures |r| == |s| - 4
    ensures r[..m.index] == s[..m.index]
    ensures r[m.index..m.close - 2] == s[m.index + 2..m.close]
    ensures r[m.close - 2..] == s[m.close + 2..]
  {
    s[..m.index] + s[m.index + 2..m.close] + s[m.close + 2..]
  }

  /** A `TextRange`: start position and length. */
  datatype Range = Range(start: nat, length: nat)

  /** A recorded style: which delimiter was removed, and the range of its inner text. */
  datatype Span = Span(style: Delimiter, range: Range)

  /** The range of a match's inner text once the delimiters are gone. */
  function SpanOf(m: Match): Span
    requires m.index + 2 <= m.close
  {
    Span(m.delim, Range(m.index, m.close - m.index - 2))
  }

  datatype Stripped = Stripped(plain: string, spans: seq<Span>)

  /**
   * The loop of `CreateFormatter` as a recursion: remove the leftmost match
   * and go on with the shorter text. The k-th span was recorded when the text
   * had lost 4 * (k + 1) characters, and it lies within that text.
   */
  function Strip(s: string): (r: Stripped)
    ensures NoMatch(r.plain)
    ensures |s| - |r.plain| == 4 * |r.spans|
    ensures forall k :: 0 <= k < |r.spans| ==>
      r.spans[k].range.start + r.spans[k].range.length <= |s| - 4 * (k + 1)
    decreases |s|
  {
    match Find(s)
    case None => Stripped(s, [])
    case Some(m) =>
      var rest := Strip(Replace(s, m));
      var spans := [SpanOf(m)] + rest.spans;
      assert forall k :: 0 < k < |spans| ==> spans[k] == rest.spans[k - 1];
      Stripped(rest.plain, spans)
  }

  /** The ranges of the spans of one style, in recording order. */
  function Ranges(spans: seq<Span>, style: Delimiter): seq<Range>
  {
    if |spans| == 0 then []
    else
      var last := spans[|spans| - 1];
      Ranges(spans[..|spans| - 1], style) + (if last.style == style then [last.range] else [])
  }

  /** Every span lands in exactly one of the two style lists. */
  lemma {:induction false} RangesPartition(spans: seq<Span>)
    ensures |Ranges(spans, Asterisks)| + |Ranges(spans, Underscores)| == |spans|
  {
    if |spans| > 0 {
      RangesPartition(spans[..|spans| - 1]);
    }
  }

  /** Text with no delimiter pair comes back unchanged, with no ranges. */
  lemma StripNoMatch(s: string)
    requires NoMatch(s)
    ensures Strip(s) == Stripped(s, [])
  {
  }

  /** Stripping is idempotent: the plain text has nothing left to strip. */
  lemma StripIdempotent(s: string)
    ensures Strip(Strip(s).plain) == Stripped(Strip(s).plain, [])
  {
  }

  /**
   * One step of the strip loop keeps the loop's relation to `Strip`: the
   * leftmost match is removed first and its span recorded first.
   */
  lemma StripStep(text: string, s: string, done: seq<Span>, m: Match)
    requires Find(s) == Some(m)
    requires Strip(text).plain == Strip(s).plain
    requires Strip(text).spans == done + Strip(s).spans
    ensures Strip(text).plain == Strip(Replace(s, m)).plain
    ensures Strip(text).spans == (done + [SpanOf(m)]) + Strip(Replace(s, m)).spans
  {
  }

  /** Appending one span extends exactly the list of its own style. */
  lemma RangesSnoc(spans: seq<Span>, span: Span, style: Delimiter)
    ensures Ranges(spans + [span], style)
         == Ranges(spans, style) + (if span.style == style then [span.range] else [])
  {
    assert (spans + [span])[..|spans|] == spans;
  }

  /**
   * `CreateFormatter`: the plain text plus the bold (`**`) and italic (`__`)
   * ranges, each list in the order the matches were removed.
   */
  method CreateFormatter(text: string) returns (plain: string, bold: seq<Range>, italic: seq<Range>)
    ensures NoMatch(plain)
    ensures 4 * (|bold| + |italic|) == |text| - |plain|
    ensures NoMatch(text) ==> plain == text && bold == [] && italic == []
    ensures plain == Strip(text).plain
    ensures bold == Ranges(Strip(text).spans, Asterisks)
    ensures italic == Ranges(Strip(text).spans, Underscores)
  {
    plain, bold, italic := text, [], [];
    ghost var done: seq<Span> := [];
    var m := Find(plain);
    while m.Some?
      invariant m == Find(plain)
      invariant Strip(text).plain == Strip(plain).plain
      invariant Strip(text).spans == done + Strip(plain).spans
      invariant bold == Ranges(done, Asterisks) && italic == Ranges(done, Underscores)
      invariant 4 * (|bold| + |italic|) == |text| - |plain|
      decreases |plain|
    {
      var found := m.value;
      var span := SpanOf(found);
      var next := Replace(plain, found);
      StripStep(text, plain, done, found);
      RangesSnoc(done, span, Asterisks);
      RangesSnoc(done, span, Underscores);
      if found.delim == Underscores {
        italic := italic + [span.range];
      } else {
        bold := bold + [span.range];
      }
      done := done + [span];
      plain := next;
      m := Find(plain);
    }
    StripNoMatch(plain);
    assert done + [] == done;
  }
}

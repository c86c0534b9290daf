/**
 * The agent's intent parser, `process_command`: the three regular expressions it tries on
 * the stripped command (Add, View-by-date, Delete), the substring tests for the upcoming
 * view and the greetings that ask for help, and the dispatch to the store's tools.
 *
 * Each pattern is modelled twice: declaratively, as the set of ways the pattern can match
 * (positions at which each part starts), and operationally, as the one match Python's
 * backtracking engine reports. The lemmas show that the engine's match is the one the
 * pattern's priorities select.
 */
module CalendarCommands {
  import opened Wrappers
  import opened PyStr
  import opened CalendarTime
  import opened CalendarEvent
  import opened CalendarStore

  // ---------------------------------------------------------------------------------------
  // Pattern building blocks

  /** s[i..j] is a (possibly empty) run of whitespace: `\s*` from i to j. */
  predicate SpaceRun(s: string, i: nat, j: nat) {
    i <= j <= |s| && forall k :: i <= k < j ==> IsSpace(s[k])
  }

  /** A run of whitespace that stops before a non-whitespace character (or the end) is the
      run a greedy `\s*` or `\s+` consumes. */
  lemma SpaceEndIs(s: string, i: nat, j: nat)
    requires SpaceRun(s, i, j) && (j == |s| || !IsSpace(s[j]))
    ensures SpaceEnd(s, i) == j
  {
  }

  /** A character that matches a pattern letter under `re.IGNORECASE` starts the match. */
  lemma FoldHead(s: string, i: nat, p: string)
    requires FoldMatchAt(s, i, p) && |p| > 0
    ensures i < |s| && FoldsTo(s[i], p[0])
  {
    assert FoldsTo(s[i + 0], p[0]);
  }

  lemma FoldAt(s: string, i: nat, p: string, k: nat)
    requires FoldMatchAt(s, i, p) && k < |p|
    ensures FoldsTo(s[i + k], p[k])
  {
  }

  /** The date alternatives `\d{4}-\d{2}-\d{2}`, `today` and `tomorrow` (any letter case),
      as a token of length n at q. */
  predicate IsDateTokenAt(s: string, q: nat, n: nat) {
    q + n <= |s|
    && ((n == 10 && IsDateDigits(s[q..q + 10])) || (n == 5 && FoldMatchAt(s, q, "today"))
        || (n == 8 && FoldMatchAt(s, q, "tomorrow")))
  }

  /** The length of the date token at q, or 0 when there is none. The three alternatives
      exclude one another, so at most one length fits, and a date token starts with a digit
      or a `t`. */
  function DateTokenLength(s: string, q: nat): (n: nat)
    ensures forall m :: IsDateTokenAt(s, q, m) <==> m != 0 && m == n
    ensures n != 0 ==> q + n <= |s| && (IsDigit(s[q]) || s[q] == 't' || s[q] == 'T')
  {
    DateAlternativesExclusive(s, q);
    if q + 10 <= |s| && IsDateDigits(s[q..q + 10]) then 10
    else if FoldMatchAt(s, q, "today") then 5
    else if FoldMatchAt(s, q, "tomorrow") then 8
    else 0
  }

  lemma DateAlternativesExclusive(s: string, q: nat)
    ensures q + 10 <= |s| && IsDateDigits(s[q..q + 10]) ==> IsDigit(s[q])
    ensures FoldMatchAt(s, q, "today") ==> s[q] == 't' || s[q] == 'T'
    ensures FoldMatchAt(s, q, "tomorrow") ==> s[q] == 't' || s[q] == 'T'
    ensures !(FoldMatchAt(s, q, "today") && FoldMatchAt(s, q, "tomorrow"))
  {
    if q + 10 <= |s| && IsDateDigits(s[q..q + 10]) {
      assert s[q..q + 10][..4][0] == s[q];
    }
    if FoldMatchAt(s, q, "today") {
      FoldAt(s, q, "today", 0);
      FoldAt(s, q, "today", 2);
    }
    if FoldMatchAt(s, q, "tomorrow") {
      FoldAt(s, q, "tomorrow", 0);
      FoldAt(s, q, "tomorrow", 2);
    }
  }

  /** The first characters of the keywords rule each other out, and out of a date token. */
  lemma KeywordHeads(s: string, p: nat)
    ensures FoldMatchAt(s, p, "on") ==> s[p] == 'o' || s[p] == 'O'
    ensures FoldMatchAt(s, p, "for") ==> s[p] == 'f' || s[p] == 'F'
    ensures FoldMatchAt(s, p, "at") ==> s[p] == 'a' || s[p] == 'A'
    ensures FoldMatchAt(s, p, "events") ==> s[p] == 'e' || s[p] == 'E'
    ensures FoldMatchAt(s, p, "schedule") ==> s[p] == 's' || s[p] == 'S' || s[p] as int == 0x17F
  {
    if FoldMatchAt(s, p, "on") { FoldHead(s, p, "on"); }
    if FoldMatchAt(s, p, "for") { FoldHead(s, p, "for"); }
    if FoldMatchAt(s, p, "at") { FoldHead(s, p, "at"); }
    if FoldMatchAt(s, p, "events") { FoldHead(s, p, "events"); }
    if FoldMatchAt(s, p, "schedule") { FoldHead(s, p, "schedule"); }
  }

  // ---------------------------------------------------------------------------------------
  // The Add pattern:
  //   add\s+(?P<title>.+?)\s*(?:on|for)?\s*(?P<date>...)(?:\s+at\s+(?P<time>\d{1,2}:\d{2}))?$
  // with `re.IGNORECASE`, tried with `fullmatch`.

  /** `\s+at\s+` from d, `at` at a, then the time token from t to the end of s. */
  predicate IsAtTime(s: string, d: nat, a: nat, t: nat) {
    d < a && SpaceRun(s, d, a) && FoldMatchAt(s, a, "at") && a + 2 < t && SpaceRun(s, a + 2, t)
    && IsTimeDigits(s[t..])
  }

  /** One way the part of the Add pattern after the title matches all of s[e..]: whitespace
      up to p, optionally `on` or `for` and more whitespace, the date token at q, and then
      either the end of s (a == t == |s|) or `at` at a and the time token from t. */
  predicate IsAddTail(s: string, e: nat, p: nat, q: nat, a: nat, t: nat) {
    SpaceRun(s, e, p) && IsKeywordPart(s, p, q) && DateTokenLength(s, q) != 0
    && IsAfterDate(s, q + DateTokenLength(s, q), a, t)
  }

  ghost predicate TailMatches(s: string, e: nat) {
    exists p, q, a, t :: IsAddTail(s, e, p, q, a, t)
  }

  /** Where the date and time tokens of a match start; `timeAt == |s|` when there is no time. */
  datatype TailSpan = TailSpan(dateAt: nat, timeAt: nat)

  /** Where the date token starts when the text after the first `\s*` starts at p: `on` is
      tried before `for`, which is tried before no keyword. */
  function DateStart(s: string, p: nat): (q: nat)
    requires p <= |s|
    ensures p <= q <= |s|
  {
    if FoldMatchAt(s, p, "on") && DateTokenLength(s, SpaceEnd(s, p + 2)) != 0 then SpaceEnd(s, p + 2)
    else if FoldMatchAt(s, p, "for") && DateTokenLength(s, SpaceEnd(s, p + 3)) != 0 then SpaceEnd(s, p + 3)
    else p
  }

  /** The keyword part of the tail: no keyword, or `on` or `for` at p followed by whitespace
      up to the date token at q. */
  predicate IsKeywordPart(s: string, p: nat, q: nat) {
    q == p || (FoldMatchAt(s, p, "on") && SpaceRun(s, p + 2, q))
    || (FoldMatchAt(s, p, "for") && SpaceRun(s, p + 3, q))
  }

  /** The engine's date start is reached by a keyword part. */
  lemma DateStartSound(s: string, p: nat)
    requires p <= |s|
    ensures IsKeywordPart(s, p, DateStart(s, p))
  {
  }

  /** Every keyword part that ends at a date token ends where the engine puts the date. */
  lemma DateStartForced(s: string, p: nat, q: nat)
    requires p <= |s| && IsKeywordPart(s, p, q) && DateTokenLength(s, q) != 0
    ensures DateStart(s, p) == q
  {
    if q == p {
      DateStartNoKeyword(s, p);
    } else if FoldMatchAt(s, p, "on") && SpaceRun(s, p + 2, q) {
      DateStartOn(s, p, q);
    } else {
      DateStartFor(s, p, q);
    }
  }

  lemma DateStartNoKeyword(s: string, p: nat)
    requires p <= |s| && DateTokenLength(s, p) != 0
    ensures DateStart(s, p) == p
  {
    KeywordHeads(s, p);
  }

  lemma DateStartOn(s: string, p: nat, q: nat)
    requires p <= |s| && FoldMatchAt(s, p, "on") && SpaceRun(s, p + 2, q) && DateTokenLength(s, q) != 0
    ensures DateStart(s, p) == q
  {
    SpaceEndIs(s, p + 2, q);
  }

  lemma DateStartFor(s: string, p: nat, q: nat)
    requires p <= |s| && FoldMatchAt(s, p, "for") && SpaceRun(s, p + 3, q) && DateTokenLength(s, q) != 0
    ensures DateStart(s, p) == q
  {
    KeywordHeads(s, p);
    SpaceEndIs(s, p + 3, q);
  }

  /** What follows the date token at d: the end of s (a == t == |s|), or `\s+at\s+` with `at`
      at a and the time token from t to the end. */
  predicate IsAfterDate(s: string, d: nat, a: nat, t: nat) {
    (d == |s| && a == |s| && t == |s|) || IsAtTime(s, d, a, t)
  }

  /** The engine's match of `(?:\s+at\s+(?P<time>\d{1,2}:\d{2}))?$` from d: where the time
      token starts, |s| when there is none. */
  function TimeAfter(s: string, d: nat): (r: Option<nat>)
    requires d <= |s|
    ensures r.Some? ==> d <= r.value <= |s|
    ensures r.Some? && r.value < |s| ==> IsTimeDigits(s[r.value..])
  {
    if d == |s| then Some(|s|)
    else
      var a := SpaceEnd(s, d);
      if a > d && FoldMatchAt(s, a, "at") && SpaceEnd(s, a + 2) > a + 2
        && IsTimeDigits(s[SpaceEnd(s, a + 2)..])
      then Some(SpaceEnd(s, a + 2))
      else None
  }

  /** When the engine finds the optional time group (or the end), the part after the date
      matches that way. */
  lemma TimeAfterSound(s: string, d: nat, t: nat) returns (a: nat)
    requires d <= |s| && TimeAfter(s, d) == Some(t)
    ensures IsAfterDate(s, d, a, t)
  {
    if d < |s| {
      a := SpaceEnd(s, d);
      assert t == SpaceEnd(s, a + 2);
    } else {
      a := |s|;
    }
  }

  /** Every way the part after the date matches is the engine's. */
  lemma TimeAfterForced(s: string, d: nat, a: nat, t: nat)
    requires IsAfterDate(s, d, a, t)
    ensures d <= |s| && TimeAfter(s, d) == Some(t)
  {
    if d < |s| {
      AtTimeRuns(s, d, a, t);
    }
  }

  /** The two runs of whitespace around `at` are the ones the engine's greedy `\s+` takes. */
  lemma AtTimeRuns(s: string, d: nat, a: nat, t: nat)
    requires IsAtTime(s, d, a, t)
    ensures SpaceEnd(s, d) == a && SpaceEnd(s, a + 2) == t
  {
    KeywordHeads(s, a);
    SpaceEndIs(s, d, a);
    assert s[t..][0] == s[t];
    SpaceEndIs(s, a + 2, t);
  }

  /** The engine's match of the tail from p, the end of the whitespace after the title. */
  function TailFrom(s: string, p: nat): (r: Option<TailSpan>)
    requires p <= |s|
    ensures r.Some? ==> (r.value.dateAt == DateStart(s, p) && DateTokenLength(s, r.value.dateAt) != 0
      && TimeAfter(s, r.value.dateAt + DateTokenLength(s, r.value.dateAt)) == Some(r.value.timeAt))
  {
    TailAt(s, DateStart(s, p))
  }

  /** The tail once its date token is known to start at q: the token, then the time part. */
  function TailAt(s: string, q: nat): (r: Option<TailSpan>)
    requires q <= |s|
    ensures r.Some? ==> (r.value.dateAt == q && DateTokenLength(s, q) != 0
      && TimeAfter(s, q + DateTokenLength(s, q)) == Some(r.value.timeAt))
  {
    var n := DateTokenLength(s, q);
    if n == 0 then None
    else match TimeAfter(s, q + n)
      case None => None
      case Some(t) => Some(TailSpan(q, t))
  }

  /** The engine's match of the part after the title against s[e..]. */
  function MatchAddTail(s: string, e: nat): Option<TailSpan>
    requires e <= |s|
  {
    TailFrom(s, SpaceEnd(s, e))
  }

  /** The engine matches the tail exactly when the tail can match at all, and then every
      way of matching it puts the date and the time tokens at the same places. */
  lemma MatchAddTailSpec(s: string, e: nat)
    requires e <= |s|
    ensures MatchAddTail(s, e).Some? ==>
      exists p, a :: IsAddTail(s, e, p, MatchAddTail(s, e).value.dateAt, a, MatchAddTail(s, e).value.timeAt)
    ensures forall p: nat, q: nat, a: nat, t: nat :: IsAddTail(s, e, p, q, a, t) ==> MatchAddTail(s, e) == Some(TailSpan(q, t))
    ensures MatchAddTail(s, e).Some? <==> TailMatches(s, e)
  {
    if MatchAddTail(s, e).Some? {
      MatchAddTailSound(s, e);
    }
    forall p': nat, q': nat, a': nat, t': nat | IsAddTail(s, e, p', q', a', t')
      ensures MatchAddTail(s, e) == Some(TailSpan(q', t'))
    {
      TailParseForced(s, e, p', q', a', t');
    }
  }

  /** The engine's match of the tail is a way of matching it. */
  lemma MatchAddTailSound(s: string, e: nat)
    requires e <= |s| && MatchAddTail(s, e).Some?
    ensures exists p, a :: IsAddTail(s, e, p, MatchAddTail(s, e).value.dateAt, a, MatchAddTail(s, e).value.timeAt)
  {
    var p := SpaceEnd(s, e);
    assert MatchAddTail(s, e) == TailFrom(s, p);
    var a := TailFromSound(s, p);
    assert IsAddTail(s, e, p, TailFrom(s, p).value.dateAt, a, TailFrom(s, p).value.timeAt);
  }

  lemma TailFromSound(s: string, p: nat) returns (a: nat)
    requires p <= |s| && TailFrom(s, p).Some?
    ensures IsKeywordPart(s, p, TailFrom(s, p).value.dateAt)
    ensures DateTokenLength(s, TailFrom(s, p).value.dateAt) != 0
    ensures IsAfterDate(s, TailFrom(s, p).value.dateAt + DateTokenLength(s, TailFrom(s, p).value.dateAt), a,
      TailFrom(s, p).value.timeAt)
  {
    var r := TailFrom(s, p);
    var q := r.value.dateAt;
    var d := q + DateTokenLength(s, q);
    assert TimeAfter(s, d) == Some(r.value.timeAt);
    DateStartSound(s, p);
    a := TimeAfterSound(s, d, r.value.timeAt);
  }

  /** Every way of matching the tail is the engine's. */
  lemma TailParseForced(s: string, e: nat, p: nat, q: nat, a: nat, t: nat)
    requires IsAddTail(s, e, p, q, a, t)
    ensures e <= |s| && MatchAddTail(s, e) == Some(TailSpan(q, t))
  {
    TailHeadForced(s, e, p, q);
    TailFromForced(s, p, q, a, t);
  }

  /** Once the keyword part is the engine's, the rest of every tail parse is too. */
  lemma TailFromForced(s: string, p: nat, q: nat, a: nat, t: nat)
    requires p <= |s| && DateStart(s, p) == q && DateTokenLength(s, q) != 0
    requires IsAfterDate(s, q + DateTokenLength(s, q), a, t)
    ensures TailFrom(s, p) == Some(TailSpan(q, t))
  {
    var d := q + DateTokenLength(s, q);
    TimeAfterForced(s, d, a, t);
    TailFromIs(s, p, q, d, t);
  }

  /** The whitespace before the keyword and the keyword part are the engine's. */
  lemma TailHeadForced(s: string, e: nat, p: nat, q: nat)
    requires SpaceRun(s, e, p) && IsKeywordPart(s, p, q) && DateTokenLength(s, q) != 0
    ensures SpaceEnd(s, e) == p && DateStart(s, p) == q
  {
    KeywordHeads(s, p);
    assert p < |s| && !IsSpace(s[p]);
    SpaceEndIs(s, e, p);
    DateStartForced(s, p, q);
  }

  lemma TailFromIs(s: string, p: nat, q: nat, d: nat, t: nat)
    requires p <= |s| && DateStart(s, p) == q && DateTokenLength(s, q) != 0
    requires d == q + DateTokenLength(s, q) && d <= |s| && TimeAfter(s, d) == Some(t)
    ensures TailFrom(s, p) == Some(TailSpan(q, t))
  {
    TailAtIs(s, q, d, t);
    assert TailFrom(s, p) == TailAt(s, q);
  }

  lemma TailAtIs(s: string, q: nat, d: nat, t: nat)
    requires DateTokenLength(s, q) != 0 && d == q + DateTokenLength(s, q) && d <= |s|
    requires TimeAfter(s, d) == Some(t)
    ensures TailAt(s, q) == Some(TailSpan(q, t))
  {
  }

  /** The tokens of the engine's tail match lie inside s: a date token, then the time token
      (if any) running to the end. */
  lemma TailBounds(s: string, e: nat)
    requires e <= |s| && MatchAddTail(s, e).Some?
    ensures DateTokenLength(s, MatchAddTail(s, e).value.dateAt) != 0
    ensures MatchAddTail(s, e).value.dateAt + DateTokenLength(s, MatchAddTail(s, e).value.dateAt)
      <= MatchAddTail(s, e).value.timeAt <= |s|
    ensures MatchAddTail(s, e).value.timeAt < |s| ==> IsTimeDigits(s[MatchAddTail(s, e).value.timeAt..])
  {
  }

  /** Skipping whitespace before the tail changes nothing. */
  lemma TailShift(s: string, i: nat, j: nat)
    requires SpaceRun(s, i, j)
    ensures MatchAddTail(s, i) == MatchAddTail(s, j)
  {
    SpaceEndWithin(s, i, j);
  }

  predicate NoNewline(s: string, i: nat, j: nat) {
    forall k :: i <= k < j && k < |s| ==> s[k] != '\n'
  }

  /** One way the whole Add pattern matches s: `add` (any case), at least one whitespace
      character, the title from b to e (`.` does not match a newline), and the tail. */
  ghost predicate IsAddParse(s: string, b: nat, e: nat) {
    FoldMatchAt(s, 0, "add") && 3 < b < e <= |s| && SpaceRun(s, 3, b) && NoNewline(s, b, e)
    && TailMatches(s, e)
  }

  /** The lazy `.+?` from title start b: the first end, from e on, after which the tail
      matches. */
  function ShortestTitleEnd(s: string, b: nat, e: nat): (r: Option<nat>)
    requires b < e <= |s| + 1 && NoNewline(s, b, e - 1)
    ensures r.Some? ==> (e <= r.value <= |s| && NoNewline(s, b, r.value)
      && MatchAddTail(s, r.value).Some?)
    decreases |s| + 1 - e
  {
    if e > |s| || s[e - 1] == '\n' then None
    else if MatchAddTail(s, e).Some? then Some(e)
    else ShortestTitleEnd(s, b, e + 1)
  }

  /** No shorter title works: the tail fails after every end the search passed over, and
      after every end it could reach when it finds none. */
  lemma {:induction false} ShortestTitleEndFirst(s: string, b: nat, e: nat)
    requires b < e <= |s| + 1 && NoNewline(s, b, e - 1)
    ensures ShortestTitleEnd(s, b, e).Some? ==>
      forall y :: e <= y < ShortestTitleEnd(s, b, e).value ==> MatchAddTail(s, y).None?
    ensures ShortestTitleEnd(s, b, e).None? ==>
      forall y :: e <= y <= |s| && NoNewline(s, b, y) ==> MatchAddTail(s, y).None?
    decreases |s| + 1 - e
  {
    if e > |s| {
    } else if s[e - 1] == '\n' {
      NewlineBlocks(s, b, e - 1);
    } else if MatchAddTail(s, e).None? {
      var r := ShortestTitleEnd(s, b, e + 1);
      assert ShortestTitleEnd(s, b, e) == r;
      ShortestTitleEndFirst(s, b, e + 1);
      if r.Some? {
        forall y | e <= y < r.value
          ensures MatchAddTail(s, y).None?
        {
          if y > e {
            assert e + 1 <= y < r.value;
          }
        }
      } else {
        forall y | e <= y <= |s| && NoNewline(s, b, y)
          ensures MatchAddTail(s, y).None?
        {
          if y > e {
            assert e + 1 <= y <= |s| && NoNewline(s, b, y);
          }
        }
      }
    }
  }

  /** `.` stops at a newline: no title runs across one. */
  lemma NewlineBlocks(s: string, b: nat, k: nat)
    requires b <= k < |s| && s[k] == '\n'
    ensures forall y :: k < y ==> !NoNewline(s, b, y)
  {
    forall y | k < y
      ensures !NoNewline(s, b, y)
    {
      assert b <= k < y && k < |s| && s[k] == '\n';
    }
  }

  /** The last index in [lo, hi) whose character is not a newline. */
  function LastNonNewline(s: string, lo: nat, hi: nat): (r: Option<nat>)
    requires lo <= hi <= |s|
    ensures r.Some? ==> (lo <= r.value < hi && s[r.value] != '\n'
      && forall k :: r.value < k < hi ==> s[k] == '\n')
    ensures r.None? ==> forall k :: lo <= k < hi ==> s[k] == '\n'
    decreases hi
  {
    if hi == lo then None
    else if s[hi - 1] != '\n' then Some(hi - 1)
    else LastNonNewline(s, lo, hi - 1)
  }

  /** Where the title and the tokens of the engine's Add match start and end. */
  datatype AddSpan = AddSpan(titleStart: nat, titleEnd: nat, dateAt: nat, timeAt: nat)

  /** The engine's `fullmatch` of the Add pattern. The greedy `\s+` after `add` first takes
      the whole run of whitespace up to w, and the lazy title grows from one character until
      the tail matches. When no title starting at w works, `\s+` gives back characters: the
      title then is the last whitespace character before w that is not a newline, and every
      longer title from there was already tried. */
  function MatchAdd(s: string): (r: Option<AddSpan>)
    ensures r.Some? ==>
      r.value.titleStart < r.value.titleEnd <= |s|
      && MatchAddTail(s, r.value.titleEnd) == Some(TailSpan(r.value.dateAt, r.value.timeAt))
  {
    match AddTitle(s)
    case None => None
    case Some(title) => SpanWithTitle(s, title.0, title.1)
  }

  /** The title the engine tries last before giving up: the shortest one after the whole
      whitespace run, or else the one-character title at the last character of the run that
      is not a newline. */
  function AddTitle(s: string): (r: Option<(nat, nat)>)
    ensures r.Some? ==> 3 < r.value.0 < r.value.1 <= |s|
    ensures r.Some? ==> (FoldMatchAt(s, 0, "add") && SpaceRun(s, 3, r.value.0)
      && NoNewline(s, r.value.0, r.value.1))
  {
    if !(FoldMatchAt(s, 0, "add") && |s| > 3 && IsSpace(s[3])) then None
    else
      var w := SpaceEnd(s, 3);
      var first := ShortestTitleEnd(s, w, w + 1);
      if first.Some? then Some((w, first.value))
      else
        var last := FallbackChoice(s);
        if last.Some? then Some((last.value, last.value + 1)) else None
  }

  /** The match with the title from b to e, when the tail matches after it. */
  function SpanWithTitle(s: string, b: nat, e: nat): (r: Option<AddSpan>)
    requires b < e <= |s|
    ensures r.Some? <==> MatchAddTail(s, e).Some?
    ensures r.Some? ==> (r.value.titleStart == b && r.value.titleEnd == e
      && MatchAddTail(s, e) == Some(TailSpan(r.value.dateAt, r.value.timeAt)))
  {
    match MatchAddTail(s, e)
    case None => None
    case Some(tail) => Some(AddSpan(b, e, tail.dateAt, tail.timeAt))
  }

  /** The engine reports the first match in the pattern's priority order: of all the ways
      the Add pattern matches, the one with the latest title start (the longest `\s+`) and,
      for that start, the earliest title end (the shortest title). It reports no match only
      when there is none, and its date and time tokens are those of the tail after its
      title. */
  lemma {:induction false} MatchAddIsFirstParse(s: string)
    ensures MatchAdd(s).Some? ==> IsAddParse(s, MatchAdd(s).value.titleStart, MatchAdd(s).value.titleEnd)
    ensures MatchAdd(s).Some? ==> forall b: nat, e: nat :: IsAddParse(s, b, e) ==>
      b < MatchAdd(s).value.titleStart || (b == MatchAdd(s).value.titleStart && MatchAdd(s).value.titleEnd <= e)
    ensures MatchAdd(s).Some? ==>
      MatchAddTail(s, MatchAdd(s).value.titleEnd) == Some(TailSpan(MatchAdd(s).value.dateAt, MatchAdd(s).value.timeAt))
    ensures MatchAdd(s).None? ==> forall b: nat, e: nat :: !IsAddParse(s, b, e)
  {
    if MatchAdd(s).Some? {
      MatchAddIsParse(s);
    }
    if FoldMatchAt(s, 0, "add") && |s| > 3 && IsSpace(s[3]) {
      PrefixedFirstParse(s);
    } else {
      NoAddPrefix(s);
    }
  }

  /** After `add` and whitespace, the engine's match precedes every other, and it finds
      one whenever there is one. */
  lemma PrefixedFirstParse(s: string)
    requires FoldMatchAt(s, 0, "add") && |s| > 3 && IsSpace(s[3])
    ensures MatchAdd(s).Some? ==> PrecedesAll(s, MatchAdd(s).value.titleStart, MatchAdd(s).value.titleEnd)
    ensures MatchAdd(s).None? ==> forall b: nat, e: nat :: !IsAddParse(s, b, e)
  {
    var w := SpaceEnd(s, 3);
    if ShortestTitleEnd(s, w, w + 1).Some? {
      FirstTitleWins(s);
    } else {
      FallbackWins(s);
    }
  }

  /** No way of matching comes before the one with the title from b to e. */
  ghost predicate PrecedesAll(s: string, b: nat, e: nat) {
    forall b': nat, e': nat :: IsAddParse(s, b', e') ==> b' < b || (b' == b && e <= e')
  }

  lemma FirstTitleWins(s: string)
    requires FoldMatchAt(s, 0, "add") && |s| > 3 && IsSpace(s[3])
    requires ShortestTitleEnd(s, SpaceEnd(s, 3), SpaceEnd(s, 3) + 1).Some?
    ensures MatchAdd(s).Some? && PrecedesAll(s, MatchAdd(s).value.titleStart, MatchAdd(s).value.titleEnd)
  {
    FirstTitleStartWins(s);
    FirstTitleSpan(s);
  }

  lemma FallbackWins(s: string)
    requires FoldMatchAt(s, 0, "add") && |s| > 3 && IsSpace(s[3])
    requires ShortestTitleEnd(s, SpaceEnd(s, 3), SpaceEnd(s, 3) + 1).None?
    ensures MatchAdd(s).Some? ==> PrecedesAll(s, MatchAdd(s).value.titleStart, MatchAdd(s).value.titleEnd)
    ensures MatchAdd(s).None? ==> forall b: nat, e: nat :: !IsAddParse(s, b, e)
  {
    FallbackTitle(s);
    if FallbackWorks(s) {
      assert MatchAdd(s).Some? && MatchAdd(s).value.titleStart == FallbackChoice(s).value;
      assert MatchAdd(s).value.titleEnd == FallbackChoice(s).value + 1;
    } else {
      NoFallbackSpan(s);
    }
  }

  /** The engine's match is a way of matching the pattern. */
  lemma MatchAddIsParse(s: string)
    requires MatchAdd(s).Some?
    ensures IsAddParse(s, MatchAdd(s).value.titleStart, MatchAdd(s).value.titleEnd)
  {
    var title := AddTitle(s).value;
    ParseAt(s, title.0, title.1);
  }

  lemma FirstTitleSpan(s: string)
    requires FoldMatchAt(s, 0, "add") && |s| > 3 && IsSpace(s[3])
    requires ShortestTitleEnd(s, SpaceEnd(s, 3), SpaceEnd(s, 3) + 1).Some?
    ensures MatchAdd(s).Some? && MatchAdd(s).value.titleStart == SpaceEnd(s, 3)
    ensures MatchAdd(s).value.titleEnd == ShortestTitleEnd(s, SpaceEnd(s, 3), SpaceEnd(s, 3) + 1).value
  {
    var w := SpaceEnd(s, 3);
    assert AddTitle(s) == Some((w, ShortestTitleEnd(s, w, w + 1).value));
  }

  lemma NoFallbackSpan(s: string)
    requires FoldMatchAt(s, 0, "add") && |s| > 3 && IsSpace(s[3])
    requires ShortestTitleEnd(s, SpaceEnd(s, 3), SpaceEnd(s, 3) + 1).None? && !FallbackWorks(s)
    ensures MatchAdd(s).None?
  {
    FallbackAddTitle(s);
  }

  /** When no title starts at the end of the whitespace, the engine's title is the fallback
      one. */
  lemma FallbackAddTitle(s: string)
    requires FoldMatchAt(s, 0, "add") && |s| > 3 && IsSpace(s[3])
    requires ShortestTitleEnd(s, SpaceEnd(s, 3), SpaceEnd(s, 3) + 1).None?
    ensures FallbackChoice(s).None? ==> AddTitle(s).None?
    ensures FallbackChoice(s).Some? ==> (AddTitle(s).Some?
      && AddTitle(s).value.0 == FallbackChoice(s).value && AddTitle(s).value.1 == FallbackChoice(s).value + 1)
  {
  }

  /** Without `add` and a whitespace character in front, nothing matches. */
  lemma NoAddPrefix(s: string)
    requires !(FoldMatchAt(s, 0, "add") && |s| > 3 && IsSpace(s[3]))
    ensures MatchAdd(s).None? && forall b: nat, e: nat :: !IsAddParse(s, b, e)
  {
    forall b: nat, e: nat
      ensures !IsAddParse(s, b, e)
    {
      if 3 < b <= |s| && SpaceRun(s, 3, b) {
        assert IsSpace(s[3]);
      }
    }
  }

  /** When a title can start right after the whitespace that follows `add`, the shortest
      such title is the first parse. */
  lemma FirstTitleStartWins(s: string)
    requires FoldMatchAt(s, 0, "add") && |s| > 3 && IsSpace(s[3])
    requires ShortestTitleEnd(s, SpaceEnd(s, 3), SpaceEnd(s, 3) + 1).Some?
    ensures IsAddParse(s, SpaceEnd(s, 3), ShortestTitleEnd(s, SpaceEnd(s, 3), SpaceEnd(s, 3) + 1).value)
    ensures forall b: nat, e: nat :: IsAddParse(s, b, e) ==>
      b < SpaceEnd(s, 3) || (b == SpaceEnd(s, 3) && ShortestTitleEnd(s, SpaceEnd(s, 3), SpaceEnd(s, 3) + 1).value <= e)
  {
    var w := SpaceEnd(s, 3);
    var x := ShortestTitleEnd(s, w, w + 1).value;
    ShortestTitleEndFirst(s, w, w + 1);
    ParseAt(s, w, x);
    forall b: nat, e: nat | IsAddParse(s, b, e)
      ensures b < w || (b == w && x <= e)
    {
      AddParseFacts(s, b, e);
    }
  }

  /** When no title can start right after the whitespace, the title is the last
      whitespace character before it that is not a newline, if the tail matches after it;
      otherwise the pattern does not match at all. */
  lemma FallbackTitle(s: string)
    requires FoldMatchAt(s, 0, "add") && |s| > 3 && IsSpace(s[3])
    requires ShortestTitleEnd(s, SpaceEnd(s, 3), SpaceEnd(s, 3) + 1).None?
    ensures forall b: nat, e: nat :: IsAddParse(s, b, e) ==> FallbackWorks(s) && b <= FallbackChoice(s).value
  {
    forall b: nat, e: nat | IsAddParse(s, b, e)
      ensures FallbackWorks(s) && b <= FallbackChoice(s).value
    {
      FallbackTail(s, b, e);
    }
  }

  predicate FallbackWorks(s: string)
    requires |s| > 3 && IsSpace(s[3])
  {
    FallbackChoice(s).Some? && MatchAddTail(s, FallbackChoice(s).value + 1).Some?
  }

  /** The last character of the whitespace after `add` that is not a newline, if any. */
  function FallbackChoice(s: string): (r: Option<nat>)
    requires |s| > 3 && IsSpace(s[3])
    ensures r.Some? ==> 4 <= r.value < SpaceEnd(s, 3) && s[r.value] != '\n'
    ensures r.Some? ==> forall k :: r.value < k < SpaceEnd(s, 3) ==> s[k] == '\n'
    ensures r.None? ==> forall k :: 4 <= k < SpaceEnd(s, 3) ==> s[k] == '\n'
  {
    LastNonNewline(s, 4, SpaceEnd(s, 3))
  }

  /** A parse whose title starts before the end of the whitespace, when no title starts at
      its end: the engine's fallback title exists, starts no earlier, and the tail matches
      after it. */
  lemma FallbackTail(s: string, b: nat, e: nat)
    requires IsAddParse(s, b, e)
    requires ShortestTitleEnd(s, SpaceEnd(s, 3), SpaceEnd(s, 3) + 1).None?
    ensures FallbackWorks(s) && b <= FallbackChoice(s).value
  {
    var w := SpaceEnd(s, 3);
    FallbackTitleInRun(s, b, e);
    AddParseFacts(s, b, e);
    var x := FallbackChoice(s).value;
    TailShift(s, e, w);
    TailShift(s, x + 1, w);
  }

  /** When no title starts at the end of the whitespace, every parse ends inside it. */
  lemma FallbackTitleInRun(s: string, b: nat, e: nat)
    requires IsAddParse(s, b, e)
    requires ShortestTitleEnd(s, SpaceEnd(s, 3), SpaceEnd(s, 3) + 1).None?
    ensures e <= SpaceEnd(s, 3)
  {
    var w := SpaceEnd(s, 3);
    ShortestTitleEndFirst(s, w, w + 1);
    AddParseFacts(s, b, e);
  }

  /** What every way of matching the Add pattern has in common with the engine's search: its
      title starts inside the whitespace after `add`, on a character that is not a newline,
      and the tail matches after it. */
  lemma AddParseFacts(s: string, b: nat, e: nat)
    requires IsAddParse(s, b, e)
    ensures b <= SpaceEnd(s, 3) && s[b] != '\n'
    ensures NoNewline(s, SpaceEnd(s, 3), e)
    ensures MatchAddTail(s, e).Some?
    ensures e <= SpaceEnd(s, 3) ==> SpaceRun(s, e, SpaceEnd(s, 3))
  {
    MatchAddTailSpec(s, e);
  }

  lemma ParseAt(s: string, b: nat, e: nat)
    requires FoldMatchAt(s, 0, "add") && 3 < b < e <= |s| && SpaceRun(s, 3, b) && NoNewline(s, b, e)
    requires MatchAddTail(s, e).Some?
    ensures IsAddParse(s, b, e)
  {
    MatchAddTailSpec(s, e);
  }

  // ---------------------------------------------------------------------------------------
  // The View-by-date pattern:
  //   (view|show|what's happening)\s+(events\s+(?:on\s+|for\s+)?|schedule\s+)?(?P<date>...)
  // with `re.IGNORECASE`, tried with `match` (a prefix of the command; anything may follow).

  /** The verb alternatives, of length v at the start of s. */
  predicate IsVerb(s: string, v: nat) {
    (v == 4 && (FoldMatchAt(s, 0, "view") || FoldMatchAt(s, 0, "show")))
    || (v == 16 && FoldMatchAt(s, 0, "what's happening"))
  }

  /** The length of the verb the command starts with, or 0. */
  function VerbLength(s: string): nat {
    if FoldMatchAt(s, 0, "view") || FoldMatchAt(s, 0, "show") then 4
    else if FoldMatchAt(s, 0, "what's happening") then 16
    else 0
  }

  lemma VerbForced(s: string, v: nat)
    requires IsVerb(s, v)
    ensures VerbLength(s) == v
  {
    if FoldMatchAt(s, 0, "what's happening") {
      FoldHead(s, 0, "what's happening");
      if FoldMatchAt(s, 0, "view") { FoldHead(s, 0, "view"); }
      if FoldMatchAt(s, 0, "show") { FoldHead(s, 0, "show"); }
    }
  }

  /** After `events` and its whitespace at j: no keyword (q == j), or `on` or `for`, at least
      one whitespace character, and the date token at q. */
  predicate IsViewKeyword(s: string, j: nat, q: nat) {
    q == j || (FoldMatchAt(s, j, "on") && j + 2 < q && SpaceRun(s, j + 2, q))
    || (FoldMatchAt(s, j, "for") && j + 3 < q && SpaceRun(s, j + 3, q))
  }

  /** The optional group and the date token after the verb's whitespace, which ends at i:
      nothing (j == q == i), `events` with whitespace up to j and the keyword part, or
      `schedule` with whitespace up to j == q; then a date token at q. */
  predicate IsViewGroup(s: string, i: nat, j: nat, q: nat) {
    ((j == i && q == i)
     || (FoldMatchAt(s, i, "events") && i + 6 < j && SpaceRun(s, i + 6, j) && IsViewKeyword(s, j, q))
     || (FoldMatchAt(s, i, "schedule") && i + 8 < j && SpaceRun(s, i + 8, j) && q == j))
    && DateTokenLength(s, q) != 0
  }

  /** One way the View pattern matches a prefix of s: the verb of length v, whitespace up to
      i, then the group and the date token at q. */
  predicate IsViewParse(s: string, v: nat, i: nat, j: nat, q: nat) {
    IsVerb(s, v) && v < i && SpaceRun(s, v, i) && IsViewGroup(s, i, j, q)
  }

  /** The engine's choice after `events\s+`: `on\s+` first, then `for\s+`, then neither. */
  function DateAfterEvents(s: string, j: nat): Option<nat>
    requires j <= |s|
  {
    if FoldMatchAt(s, j, "on") && SpaceEnd(s, j + 2) > j + 2 && DateTokenLength(s, SpaceEnd(s, j + 2)) != 0 then
      Some(SpaceEnd(s, j + 2))
    else if FoldMatchAt(s, j, "for") && SpaceEnd(s, j + 3) > j + 3 && DateTokenLength(s, SpaceEnd(s, j + 3)) != 0 then
      Some(SpaceEnd(s, j + 3))
    else if DateTokenLength(s, j) != 0 then Some(j)
    else None
  }

  /** The engine's choice of the group after the verb's whitespace: the `events` group is
      tried before the `schedule` group, which is tried before no group. */
  function ViewDateFrom(s: string, i: nat): Option<nat>
    requires i <= |s|
  {
    var viaEvents :=
      if FoldMatchAt(s, i, "events") && SpaceEnd(s, i + 6) > i + 6 then DateAfterEvents(s, SpaceEnd(s, i + 6))
      else None;
    if viaEvents.Some? then viaEvents
    else if FoldMatchAt(s, i, "schedule") && SpaceEnd(s, i + 8) > i + 8 && DateTokenLength(s, SpaceEnd(s, i + 8)) != 0 then
      Some(SpaceEnd(s, i + 8))
    else if DateTokenLength(s, i) != 0 then Some(i)
    else None
  }

  /** The engine's `match` of the View pattern: where the date token starts. */
  function MatchViewDate(s: string): (r: Option<nat>)
  {
    var v := VerbLength(s);
    if v == 0 || v >= |s| || SpaceEnd(s, v) == v then None
    else ViewDateFrom(s, SpaceEnd(s, v))
  }

  /** The engine's match is a way of matching the View pattern. */
  lemma MatchViewDateSound(s: string)
    requires MatchViewDate(s).Some?
    ensures exists v, i, j :: IsViewParse(s, v, i, j, MatchViewDate(s).value)
  {
    var v := VerbLength(s);
    var i := SpaceEnd(s, v);
    var j := ViewDateFromSound(s, i);
    assert IsViewParse(s, v, i, j, MatchViewDate(s).value);
  }

  lemma ViewDateFromSound(s: string, i: nat) returns (j: nat)
    requires i <= |s| && ViewDateFrom(s, i).Some?
    ensures IsViewGroup(s, i, j, ViewDateFrom(s, i).value)
  {
    var q := ViewDateFrom(s, i).value;
    if FoldMatchAt(s, i, "events") && SpaceEnd(s, i + 6) > i + 6 && DateAfterEvents(s, SpaceEnd(s, i + 6)).Some? {
      j := SpaceEnd(s, i + 6);
      DateAfterEventsSound(s, j);
    } else if FoldMatchAt(s, i, "schedule") && SpaceEnd(s, i + 8) > i + 8 && DateTokenLength(s, SpaceEnd(s, i + 8)) != 0 {
      j := q;
    } else {
      j := i;
    }
  }

  lemma DateAfterEventsSound(s: string, j: nat)
    requires j <= |s| && DateAfterEvents(s, j).Some?
    ensures IsViewKeyword(s, j, DateAfterEvents(s, j).value)
    ensures DateTokenLength(s, DateAfterEvents(s, j).value) != 0
  {
  }

  /** Every way of matching the View pattern puts the date token where the engine does, so
      all of them capture the same token. */
  lemma MatchViewDateForced(s: string, v: nat, i: nat, j: nat, q: nat)
    requires IsViewParse(s, v, i, j, q)
    ensures MatchViewDate(s) == Some(q)
  {
    VerbForced(s, v);
    ViewDateFromForced(s, i, j, q);
    SpaceEndIs(s, v, i);
  }

  lemma ViewDateFromForced(s: string, i: nat, j: nat, q: nat)
    requires i <= |s| && IsViewGroup(s, i, j, q)
    ensures ViewDateFrom(s, i) == Some(q)
    ensures i < |s| && !IsSpace(s[i])
  {
    if FoldMatchAt(s, i, "events") && i + 6 < j && SpaceRun(s, i + 6, j) && IsViewKeyword(s, j, q) {
      ViewDateViaEvents(s, i, j, q);
    } else if FoldMatchAt(s, i, "schedule") && i + 8 < j && SpaceRun(s, i + 8, j) && q == j {
      ViewDateViaSchedule(s, i, j);
    } else {
      ViewDateBare(s, i);
    }
  }

  lemma ViewDateViaEvents(s: string, i: nat, j: nat, q: nat)
    requires i <= |s| && FoldMatchAt(s, i, "events") && i + 6 < j && SpaceRun(s, i + 6, j)
    requires IsViewKeyword(s, j, q) && DateTokenLength(s, q) != 0
    ensures ViewDateFrom(s, i) == Some(q)
    ensures i < |s| && !IsSpace(s[i])
  {
    KeywordHeads(s, i);
    DateAfterEventsForced(s, j, q);
    SpaceEndIs(s, i + 6, j);
    assert SpaceEnd(s, i + 6) == j && DateAfterEvents(s, j) == Some(q);
  }

  lemma ViewDateViaSchedule(s: string, i: nat, j: nat)
    requires i <= |s| && FoldMatchAt(s, i, "schedule") && i + 8 < j && SpaceRun(s, i + 8, j)
    requires DateTokenLength(s, j) != 0
    ensures ViewDateFrom(s, i) == Some(j)
    ensures i < |s| && !IsSpace(s[i])
  {
    KeywordHeads(s, i);
    SpaceEndIs(s, i + 8, j);
  }

  lemma ViewDateBare(s: string, i: nat)
    requires i <= |s| && DateTokenLength(s, i) != 0
    ensures ViewDateFrom(s, i) == Some(i)
    ensures i < |s| && !IsSpace(s[i])
  {
    KeywordHeads(s, i);
  }

  lemma DateAfterEventsForced(s: string, j: nat, q: nat)
    requires j <= |s| && IsViewKeyword(s, j, q) && DateTokenLength(s, q) != 0
    ensures DateAfterEvents(s, j) == Some(q)
    ensures j < |s| && !IsSpace(s[j])
  {
    KeywordHeads(s, j);
    KeywordHeads(s, q);
    if FoldMatchAt(s, j, "on") && j + 2 < q && SpaceRun(s, j + 2, q) {
      DateAfterOn(s, j, q);
    } else if FoldMatchAt(s, j, "for") && j + 3 < q && SpaceRun(s, j + 3, q) {
      DateAfterFor(s, j, q);
    }
  }

  lemma DateAfterOn(s: string, j: nat, q: nat)
    requires FoldMatchAt(s, j, "on") && j + 2 < q && SpaceRun(s, j + 2, q) && DateTokenLength(s, q) != 0
    requires q < |s| && !IsSpace(s[q])
    ensures DateAfterEvents(s, j) == Some(q)
  {
    SpaceEndIs(s, j + 2, q);
  }

  lemma DateAfterFor(s: string, j: nat, q: nat)
    requires FoldMatchAt(s, j, "for") && j + 3 < q && SpaceRun(s, j + 3, q) && DateTokenLength(s, q) != 0
    requires q < |s| && !IsSpace(s[q])
    requires !(FoldMatchAt(s, j, "on") && SpaceEnd(s, j + 2) > j + 2)
    ensures DateAfterEvents(s, j) == Some(q)
  {
    SpaceEndIs(s, j + 3, q);
  }

  /** The View pattern matches exactly when the engine finds a date token, and every way of
      matching it finds the same one. */
  lemma MatchViewDateSpec(s: string)
    ensures MatchViewDate(s).Some? ==> exists v, i, j :: IsViewParse(s, v, i, j, MatchViewDate(s).value)
    ensures forall v: nat, i: nat, j: nat, q: nat :: IsViewParse(s, v, i, j, q) ==> MatchViewDate(s) == Some(q)
  {
    if MatchViewDate(s).Some? {
      MatchViewDateSound(s);
    }
    forall v: nat, i: nat, j: nat, q: nat | IsViewParse(s, v, i, j, q)
      ensures MatchViewDate(s) == Some(q)
    {
      MatchViewDateForced(s, v, i, j, q);
    }
  }

  // ---------------------------------------------------------------------------------------
  // The Delete pattern `delete\s+event\s+(?P<id>\d+)$`, case-sensitive, tried with `match`.

  /** The end of the run of digits starting at j. */
  function DigitEnd(s: string, j: nat): (k: nat)
    requires j <= |s|
    ensures j <= k <= |s| && AllDigits(s[j..k])
    ensures forall x :: j <= x < k ==> IsDigit(s[x])
    ensures k < |s| ==> !IsDigit(s[k])
    decreases |s| - j
  {
    if j == |s| || !IsDigit(s[j]) then j
    else
      var k := DigitEnd(s, j + 1);
      assert s[j..k] == [s[j]] + s[j + 1..k];
      k
  }

  lemma DigitEndIs(s: string, j: nat, k: nat)
    requires j <= k <= |s| && AllDigits(s[j..k]) && (k == |s| || !IsDigit(s[k]))
    ensures DigitEnd(s, j) == k
  {
    forall x | j <= x < k
      ensures IsDigit(s[x])
    {
      assert s[j..k][x - j] == s[x];
    }
  }

  /** One way the Delete pattern matches s: `delete`, whitespace up to i, `event` at i,
      whitespace up to j, the digits from j to k, and `$`: the end of s or a final newline. */
  predicate IsDeleteParse(s: string, i: nat, j: nat, k: nat) {
    OccursAt(s, "delete", 0) && 6 < i && SpaceRun(s, 6, i) && OccursAt(s, "event", i)
    && i + 5 < j && SpaceRun(s, i + 5, j) && j < k <= |s| && AllDigits(s[j..k])
    && (k == |s| || (k + 1 == |s| && s[k] == '\n'))
  }

  /** The engine's match of the Delete pattern: the id `int()` reads from the digits. */
  function MatchDelete(s: string): Option<nat> {
    if !OccursAt(s, "delete", 0) then None
    else
      var i := SpaceEnd(s, 6);
      if i == 6 || !OccursAt(s, "event", i) then None
      else
        var j := SpaceEnd(s, i + 5);
        if j == i + 5 then None
        else
          var k := DigitEnd(s, j);
          if j < k && (k == |s| || (k + 1 == |s| && s[k] == '\n')) then Some(Value(s[j..k]))
          else None
  }

  /** The Delete pattern matches exactly when the engine finds an id, and every way of
      matching it reads the same digits. */
  lemma MatchDeleteSpec(s: string)
    ensures MatchDelete(s).Some? ==>
      exists i: nat, j: nat, k: nat :: IsDeleteParse(s, i, j, k) && MatchDelete(s).value == Value(s[j..k])
    ensures forall i: nat, j: nat, k: nat :: IsDeleteParse(s, i, j, k) ==> MatchDelete(s) == Some(Value(s[j..k]))
  {
    if MatchDelete(s).Some? {
      var i, j, k := MatchDeleteSound(s);
    }
    forall i: nat, j: nat, k: nat | IsDeleteParse(s, i, j, k)
      ensures MatchDelete(s) == Some(Value(s[j..k]))
    {
      MatchDeleteForced(s, i, j, k);
    }
  }

  lemma MatchDeleteSound(s: string) returns (i: nat, j: nat, k: nat)
    requires MatchDelete(s).Some?
    ensures IsDeleteParse(s, i, j, k) && MatchDelete(s).value == Value(s[j..k])
  {
    i := SpaceEnd(s, 6);
    j := SpaceEnd(s, i + 5);
    k := DigitEnd(s, j);
  }

  lemma MatchDeleteForced(s: string, i: nat, j: nat, k: nat)
    requires IsDeleteParse(s, i, j, k)
    ensures MatchDelete(s) == Some(Value(s[j..k]))
  {
    assert s[i..i + 5][0] == s[i];
    SpaceEndIs(s, 6, i);
    assert s[j..k][0] == s[j];
    SpaceEndIs(s, i + 5, j);
    DigitEndIs(s, j, k);
  }

  // ---------------------------------------------------------------------------------------
  // Dispatch

  /** The case-sensitive substring tests for the upcoming view. */
  predicate WantsUpcoming(s: string) {
    Contains(s, "view all events") || Contains(s, "show upcoming events") || Contains(s, "show my schedule")
  }

  predicate IsGreeting(s: string) {
    s == "help" || s == "hi" || s == "hello"
  }

  /** What `process_command` decides to do with a stripped command, with the text its
      pattern captured. */
  datatype Intent =
    | AddIntent(title: string, dateToken: string, timeToken: Option<string>)
    | ViewDateIntent(dateToken: string)
    | UpcomingIntent
    | DeleteIntent(id: nat)
    | HelpIntent
    | Unrecognized

  /** The date token at q. */
  function DateToken(s: string, q: nat): (r: string)
    requires q <= |s|
    ensures DateTokenLength(s, q) != 0 ==> IsDateTokenAt(s, q, |r|) && r == s[q..q + |r|]
  {
    s[q..q + DateTokenLength(s, q)]
  }

  /** The tests of `process_command` in their order: the Add pattern, the View pattern, the
      upcoming substrings, the Delete pattern, the greetings. The title is stripped of the
      whitespace around it. */
  function Classify(c: string): Intent {
    match MatchAdd(c)
    case Some(span) =>
      TailBounds(c, span.titleEnd);
      var time := if span.timeAt < |c| then Some(c[span.timeAt..]) else None;
      AddIntent(Strip(c[span.titleStart..span.titleEnd]), DateToken(c, span.dateAt), time)
    case None =>
      match MatchViewDate(c)
      case Some(q) => ViewDateIntent(DateToken(c, q))
      case None =>
        if WantsUpcoming(c) then UpcomingIntent
        else match MatchDelete(c)
          case Some(id) => DeleteIntent(id)
          case None => if IsGreeting(c) then HelpIntent else Unrecognized
  }

  const DateError := "Could not understand the date. Please use YYYY-MM-DD, 'today', or 'tomorrow'."

  const HelpText :=
    "Hello! I am your AI Calendar Agent.\n"
    + "Here are the commands you can use:\n"
    + "- Add an event: `add <title> on <YYYY-MM-DD> [at <HH:MM>]` (e.g., `add meeting on 2023-12-25 at 10:00`)\n"
    + "- Add an event for today/tomorrow: `add <title> today [at <HH:MM>]` (e.g., `add dentist appointment tomorrow at 14:30`)\n"
    + "- View events for a date: `view events on <YYYY-MM-DD>` or `what's happening today`\n"
    + "- View all upcoming events: `view all events` or `show my schedule`\n"
    + "- Delete an event: `delete event <ID>` (You'll see IDs when viewing events)\n"
    + "- Type 'exit' to quit."

  const NotUnderstood := "I didn't understand that command. Type 'help' for available commands."

  /** The store's contents after a command and the agent's answer. */
  datatype Reply = Reply(events: seq<Event>, response: string)

  /** What the dispatched tool does to the store and answers, with the clock's
      `date.today()` passed in as `today`. A time token `strptime` refuses gives an all-day
      event. */
  function Step(events: seq<Event>, today: Date, intent: Intent): Reply
    requires today != LastDate
  {
    match intent
    case AddIntent(title, dateToken, timeToken) =>
      (match ParseDate(dateToken, today)
       case None => Reply(events, DateError)
       case Some(date) =>
         var time := if timeToken.Some? then ParseTime(timeToken.value) else None;
         Reply(WithEvent(events, title, date, time), AddedMessage(title, date, time)))
    case ViewDateIntent(dateToken) =>
      (match ParseDate(dateToken, today)
       case None => Reply(events, DateError)
       case Some(date) => Reply(events, OnDateResponse(events, date)))
    case UpcomingIntent => Reply(events, UpcomingResponse(events, today))
    case DeleteIntent(id) => Reply(WithoutId(events, id), DeleteMessage(HasId(events, id), id))
    case HelpIntent => Reply(events, HelpText)
    case Unrecognized => Reply(events, NotUnderstood)
  }

  /** `process_command(command)`: strip the command, decide what it asks for, and call the
      tool on the calendar. */
  method ProcessCommand(calendar: Calendar, command: string, today: Date) returns (response: string)
    requires today != LastDate
    modifies calendar
    ensures calendar.events == Step(old(calendar.events), today, Classify(Strip(command))).events
    ensures response == Step(old(calendar.events), today, Classify(Strip(command))).response
  {
    var c := Strip(command);
    response := CallTool(calendar, Classify(c), today);
  }

  /** The tool call that follows the tests: the tool the intent names, run on the calendar,
      with a date token that `parse_date` refuses answered by the date error. */
  method CallTool(calendar: Calendar, intent: Intent, today: Date) returns (response: string)
    requires today != LastDate
    modifies calendar
    ensures calendar.events == Step(old(calendar.events), today, intent).events
    ensures response == Step(old(calendar.events), today, intent).response
  {
    match intent
    case AddIntent(title, dateToken, timeToken) =>
      var date := ParseDate(dateToken, today);
      if date.Some? {
        var time := if timeToken.Some? then ParseTime(timeToken.value) else None;
        response := calendar.AddEvent(title, date.value, time);
      } else {
        response := DateError;
      }
    case ViewDateIntent(dateToken) =>
      var date := ParseDate(dateToken, today);
      if date.Some? {
        response := calendar.ViewEventsOnDate(date.value);
      } else {
        response := DateError;
      }
    case UpcomingIntent =>
      response := calendar.ViewAllUpcomingEvents(today);
    case DeleteIntent(id) =>
      response := calendar.DeleteEventById(id);
    case HelpIntent =>
      response := HelpText;
    case Unrecognized =>
      response := NotUnderstood;
  }

  // ---------------------------------------------------------------------------------------
  // What the dispatch promises

  /** A word of lower-case letters other than i, s and k matches, ignoring case, only its
      ASCII spellings, so `lower()` gives the word back. */
  lemma FoldedWordLowers(s: string, q: nat, p: string)
    requires FoldMatchAt(s, q, p)
    requires forall k :: 0 <= k < |p| ==> 'a' <= p[k] <= 'z' && p[k] != 'i' && p[k] != 's' && p[k] != 'k'
    ensures LowerAscii(s[q..q + |p|]) == p
  {
    var t := s[q..q + |p|];
    forall k | 0 <= k < |p|
      ensures LowerAscii(t)[k] == p[k]
    {
      FoldAt(s, q, p, k);
      assert t[k] == s[q + k];
    }
  }

  /** A captured date token that `parse_date` refuses is a well-formed numeric token naming
      a day the calendar does not have (such as 2023-02-30); `today` and `tomorrow` in any
      letter case name the clock's day and the next. */
  lemma DateTokenMeaning(s: string, q: nat, today: Date)
    requires q <= |s| && DateTokenLength(s, q) != 0 && today != LastDate
    ensures ParseDate(DateToken(s, q), today).None? ==>
      IsDateDigits(DateToken(s, q)) && !IsValidDate(TokenDate(DateToken(s, q)))
    ensures FoldMatchAt(s, q, "today") ==> ParseDate(DateToken(s, q), today) == Some(today)
    ensures FoldMatchAt(s, q, "tomorrow") ==> ParseDate(DateToken(s, q), today) == Some(NextDay(today))
  {
    var t := DateToken(s, q);
    DateAlternativesExclusive(s, q);
    if FoldMatchAt(s, q, "today") {
      assert IsDateTokenAt(s, q, 5);
      FoldedWordLowers(s, q, "today");
    } else if FoldMatchAt(s, q, "tomorrow") {
      assert IsDateTokenAt(s, q, 8);
      FoldedWordLowers(s, q, "tomorrow");
    } else {
      assert IsDateTokenAt(s, q, |t|);
      assert IsDateDigits(t);
      assert LowerAscii(t)[0] == t[0];
    }
  }

  /** A command is taken as an Add exactly when the Add pattern can match it; the title is
      the text the engine's preferred parse puts between the whitespace and the tail, without
      its surrounding whitespace, and the tokens are well formed. */
  lemma ClassifyAdd(c: string)
    ensures Classify(c).AddIntent? <==> exists b: nat, e: nat :: IsAddParse(c, b, e)
    ensures Classify(c).AddIntent? ==>
      Strip(Classify(c).title) == Classify(c).title
      && IsDateTokenAt(Classify(c).dateToken, 0, |Classify(c).dateToken|)
      && (Classify(c).timeToken.Some? ==> IsTimeDigits(Classify(c).timeToken.value))
  {
    MatchAddIsFirstParse(c);
    if MatchAdd(c).Some? {
      var span := MatchAdd(c).value;
      TailBounds(c, span.titleEnd);
      var title := Strip(c[span.titleStart..span.titleEnd]);
      StripUnchanged(title);
      TokenIsDateToken(c, span.dateAt);
    }
  }

  /** The intent of an Add the engine matched with the given span. */
  lemma ClassifyAddSpan(c: string, span: AddSpan)
    requires MatchAdd(c) == Some(span)
    ensures span.titleStart <= span.titleEnd <= |c| && span.dateAt <= |c| && span.timeAt <= |c|
    ensures Classify(c) == AddIntent(Strip(c[span.titleStart..span.titleEnd]), DateToken(c, span.dateAt),
      if span.timeAt < |c| then Some(c[span.timeAt..]) else None)
  {
    TailBounds(c, span.titleEnd);
  }

  /** The date token taken out of the command is a date token on its own. */
  lemma TokenIsDateToken(s: string, q: nat)
    requires q <= |s| && DateTokenLength(s, q) != 0
    ensures IsDateTokenAt(DateToken(s, q), 0, |DateToken(s, q)|)
  {
    var t := DateToken(s, q);
    var n := |t|;
    assert IsDateTokenAt(s, q, n);
    if n == 10 {
      assert t[0..10] == t;
    } else {
      var p := if n == 5 then "today" else "tomorrow";
      forall k | 0 <= k < n
        ensures FoldsTo(t[k], p[k])
      {
        FoldAt(s, q, p, k);
      }
      assert FoldMatchAt(t, 0, p);
    }
  }

  /** A command that is no Add is taken as a date view exactly when the View pattern can
      match it, with the date token every parse captures. */
  lemma ClassifyView(c: string)
    requires forall b: nat, e: nat :: !IsAddParse(c, b, e)
    ensures Classify(c).ViewDateIntent? <==> exists v: nat, i: nat, j: nat, q: nat :: IsViewParse(c, v, i, j, q)
    ensures forall v: nat, i: nat, j: nat, q: nat :: IsViewParse(c, v, i, j, q) ==>
      q <= |c| && Classify(c) == ViewDateIntent(DateToken(c, q))
  {
    MatchAddIsFirstParse(c);
    MatchViewDateSpec(c);
    if MatchViewDate(c).Some? {
      var q := MatchViewDate(c).value;
      var v, i, j :| IsViewParse(c, v, i, j, q);
    }
  }

  /** The greetings, and only they, give the help text. */
  lemma ClassifyHelp(c: string)
    ensures Classify(c) == HelpIntent <==> IsGreeting(c)
  {
    if IsGreeting(c) {
      GreetingIsNoOtherCommand(c);
    }
  }

  lemma GreetingIsNoOtherCommand(c: string)
    requires IsGreeting(c)
    ensures MatchAdd(c).None? && MatchViewDate(c).None? && !WantsUpcoming(c) && MatchDelete(c).None?
  {
    assert c[0 + 0] == 'h';
    assert !FoldsTo(c[0 + 0], "add"[0]);
    assert !FoldsTo(c[0 + 0], "view"[0]) && !FoldsTo(c[0 + 0], "show"[0]);
    assert !FoldsTo(c[0 + 0], "what's happening"[0]);
    assert !OccursAt(c, "delete", 0);
  }

  /** A command that is neither an Add nor a date view asks for the upcoming list exactly
      when it contains one of the three phrases, in this letter case. */
  lemma ClassifyUpcoming(c: string)
    requires forall b: nat, e: nat :: !IsAddParse(c, b, e)
    requires forall v: nat, i: nat, j: nat, q: nat :: !IsViewParse(c, v, i, j, q)
    ensures Classify(c) == UpcomingIntent <==> WantsUpcoming(c)
  {
    MatchAddIsFirstParse(c);
    MatchViewDateSpec(c);
  }

  /** A command that is none of the above is a delete exactly when the Delete pattern
      matches it, and the id is the number its digits spell. */
  lemma ClassifyDelete(c: string)
    requires forall b: nat, e: nat :: !IsAddParse(c, b, e)
    requires forall v: nat, i: nat, j: nat, q: nat :: !IsViewParse(c, v, i, j, q)
    requires !WantsUpcoming(c)
    ensures Classify(c).DeleteIntent? <==> exists i: nat, j: nat, k: nat :: IsDeleteParse(c, i, j, k)
    ensures forall i: nat, j: nat, k: nat :: IsDeleteParse(c, i, j, k) ==> Classify(c) == DeleteIntent(Value(c[j..k]))
  {
    MatchAddIsFirstParse(c);
    MatchViewDateSpec(c);
    MatchDeleteSpec(c);
  }

  /** Only an Add with a date `parse_date` accepts and a delete change the calendar; every
      other command leaves it as it was. */
  lemma StepKeepsEvents(events: seq<Event>, today: Date, intent: Intent)
    requires today != LastDate
    requires !intent.DeleteIntent?
    requires intent.AddIntent? ==> ParseDate(intent.dateToken, today).None?
    ensures Step(events, today, intent).events == events
  {
  }

  /** An Add whose date is accepted appends one event, with the next id, the captured title
      and the date; a time token `parse_time` refuses (such as 25:00) leaves the event
      all-day rather than refusing the command. The new event is then listed on its date. */
  lemma StepAddAppends(events: seq<Event>, today: Date, title: string, dateToken: string, timeToken: Option<string>)
    requires today != LastDate
    requires ParseDate(dateToken, today).Some?
    ensures var after := Step(events, today, AddIntent(title, dateToken, timeToken)).events;
      |after| == |events| + 1 && after[..|events|] == events
      && after[|events|].id == |events| + 1 && after[|events|].title == title
      && after[|events|].date == ParseDate(dateToken, today).value
      && (after[|events|].time.None? <==> timeToken.None? || ParseTime(timeToken.value).None?)
      && after[|events|] in ListedOn(after, after[|events|].date)
  {
    var date := ParseDate(dateToken, today).value;
    var time := if timeToken.Some? then ParseTime(timeToken.value) else None;
    AddedEventIsListed(events, title, date, time, today);
  }

  /** "add moon today": the lazy title stops as soon as the rest reads as a tail, so the
      title is "mo" and the tail is "on today". */
  lemma AddMoonToday(c: string)
    requires c == "add moon today"
    ensures Classify(c) == AddIntent("mo", "today", None)
  {
    MoonMatch(c);
    MoonTokens(c);
    ClassifyAddSpan(c, AddSpan(4, 6, 9, 14));
  }

  lemma MoonTokens(c: string)
    requires c == "add moon today"
    ensures Strip(c[4..6]) == "mo"
    ensures DateToken(c, 9) == "today"
  {
    assert c[4..6] == "mo";
    StripUnchanged("mo");
    MoonTailAt6(c);
    assert c[9..14] == "today";
  }

  lemma MoonMatch(c: string)
    requires c == "add moon today"
    ensures MatchAdd(c) == Some(AddSpan(4, 6, 9, 14))
  {
    MoonTitleEnd(c);
    MoonTailAt6(c);
    assert FoldMatchAt(c, 0, "add") && SpaceEnd(c, 4) == 4 && SpaceEnd(c, 3) == 4;
  }

  lemma MoonTitleEnd(c: string)
    requires c == "add moon today"
    ensures ShortestTitleEnd(c, 4, 5) == Some(6)
  {
    MoonTailAt5(c);
    MoonTailAt6(c);
    assert c[4] != '\n' && c[5] != '\n';
    assert ShortestTitleEnd(c, 4, 6) == Some(6);
  }

  /** After the title "m" the tail finds no date: "oon today" starts with neither a keyword
      nor a date token. */
  lemma MoonTailAt5(c: string)
    requires c == "add moon today"
    ensures MatchAddTail(c, 5).None?
  {
    assert c[5] == 'o' && c[6] == 'o';
    assert !IsSpace(c[5]) && SpaceEnd(c, 5) == 5;
    assert !FoldsTo(c[5 + 1], "on"[1]) && !FoldsTo(c[5 + 0], "for"[0]);
    assert DateStart(c, 5) == 5;
    assert DateTokenLength(c, 5) == 0;
  }

  /** After the title "mo" the tail reads `on`, a space and the date token `today`. */
  lemma MoonTailAt6(c: string)
    requires c == "add moon today"
    ensures MatchAddTail(c, 6) == Some(TailSpan(9, 14))
    ensures DateTokenLength(c, 9) == 5
  {
    assert !IsSpace(c[6]) && SpaceEnd(c, 6) == 6;
    assert FoldMatchAt(c, 6, "on");
    assert IsSpace(c[8]) && !IsSpace(c[9]) && SpaceEnd(c, 9) == 9 && SpaceEnd(c, 8) == 9;
    assert FoldMatchAt(c, 9, "today") && IsDateTokenAt(c, 9, 5);
    assert DateStart(c, 6) == 9;
    assert TimeAfter(c, 14) == Some(14);
  }

  /** "add  today", with two spaces: no title starts after the whole whitespace run, so
      `\s+` gives back one space, the title is that space, and stripping it leaves an empty
      title. */
  lemma AddTwoSpacesToday(c: string)
    requires c == "add  today"
    ensures MatchAdd(c) == Some(AddSpan(4, 5, 5, 10))
    ensures Classify(c) == AddIntent("", "today", None)
  {
    TwoSpacesMatch(c);
    ClassifyAddSpan(c, AddSpan(4, 5, 5, 10));
    assert c[4..5] == " ";
    assert Strip(" ") == "";
    assert c[5..10] == "today";
  }

  lemma TwoSpacesMatch(c: string)
    requires c == "add  today"
    ensures MatchAdd(c) == Some(AddSpan(4, 5, 5, 10))
    ensures DateTokenLength(c, 5) == 5
  {
    assert IsSpace(c[3]) && IsSpace(c[4]) && !IsSpace(c[5]) && SpaceEnd(c, 4) == 5 && SpaceEnd(c, 3) == 5;
    TwoSpacesNoLongerTitle(c);
    assert LastNonNewline(c, 4, 5) == Some(4);
    TwoSpacesTailAt5(c);
    FallbackAddTitle(c);
  }

  /** No title starting after the two spaces is followed by a tail: "today" is only reached
      from its first letter. */
  lemma TwoSpacesNoLongerTitle(c: string)
    requires c == "add  today"
    ensures ShortestTitleEnd(c, 5, 6).None?
  {
    TailFailsAt(c, 6);
    TailFailsAt(c, 7);
    TailFailsAt(c, 8);
    TailFailsAt(c, 9);
    TailFailsAt(c, 10);
    assert ShortestTitleEnd(c, 5, 11).None?;
    assert ShortestTitleEnd(c, 5, 10).None?;
    assert ShortestTitleEnd(c, 5, 9).None?;
    assert ShortestTitleEnd(c, 5, 8).None?;
    assert ShortestTitleEnd(c, 5, 7).None?;
  }

  /** Inside "today" (or at its end) the tail finds neither a keyword nor a date token. */
  lemma TailFailsAt(c: string, e: nat)
    requires c == "add  today" && 6 <= e <= 10
    ensures MatchAddTail(c, e).None?
  {
    if e < 10 {
      assert !IsSpace(c[e]) && !IsDigit(c[e]) && c[e] != 't' && c[e] != 'T';
      assert !FoldsTo(c[e + 0], "on"[0]) || (e + 1 < |c| && !FoldsTo(c[e + 1], "on"[1]));
      assert !FoldsTo(c[e + 0], "for"[0]);
    }
    assert SpaceEnd(c, e) == e;
    assert DateStart(c, e) == e;
    assert DateTokenLength(c, e) == 0;
  }

  /** After the one-space title the tail is the date token "today" and the end. */
  lemma TwoSpacesTailAt5(c: string)
    requires c == "add  today"
    ensures MatchAddTail(c, 5) == Some(TailSpan(5, 10))
    ensures DateTokenLength(c, 5) == 5
  {
    assert !IsSpace(c[5]) && SpaceEnd(c, 5) == 5;
    assert !FoldsTo(c[5 + 0], "on"[0]) && !FoldsTo(c[5 + 0], "for"[0]);
    assert FoldMatchAt(c, 5, "today") && IsDateTokenAt(c, 5, 5);
    assert DateStart(c, 5) == 5;
    assert TimeAfter(c, 10) == Some(10);
  }

  /** "add today", with one space: the space is all `\s+` can take, no title fits after it,
      and the pattern does not match. */
  lemma AddTodayNoMatch(c: string)
    requires c == "add today"
    ensures MatchAdd(c).None?
  {
    assert IsSpace(c[3]) && !IsSpace(c[4]) && SpaceEnd(c, 4) == 4 && SpaceEnd(c, 3) == 4;
    OneSpaceNoTitle(c);
    assert LastNonNewline(c, 4, 4).None?;
    FallbackAddTitle(c);
  }

  lemma OneSpaceNoTitle(c: string)
    requires c == "add today"
    ensures ShortestTitleEnd(c, 4, 5).None?
  {
    OneSpaceTailFails(c, 5);
    OneSpaceTailFails(c, 6);
    OneSpaceTailFails(c, 7);
    OneSpaceTailFails(c, 8);
    OneSpaceTailFails(c, 9);
    assert ShortestTitleEnd(c, 4, 10).None?;
    assert ShortestTitleEnd(c, 4, 9).None?;
    assert ShortestTitleEnd(c, 4, 8).None?;
    assert ShortestTitleEnd(c, 4, 7).None?;
    assert ShortestTitleEnd(c, 4, 6).None?;
  }

  lemma OneSpaceTailFails(c: string, e: nat)
    requires c == "add today" && 5 <= e <= 9
    ensures MatchAddTail(c, e).None?
  {
    if e < 9 {
      assert !IsSpace(c[e]) && !IsDigit(c[e]) && c[e] != 't' && c[e] != 'T';
      assert !FoldsTo(c[e + 0], "on"[0]) || (e + 1 < |c| && !FoldsTo(c[e + 1], "on"[1]));
      assert !FoldsTo(c[e + 0], "for"[0]);
    }
    assert SpaceEnd(c, e) == e;
    assert DateStart(c, e) == e;
    assert DateTokenLength(c, e) == 0;
  }

  /** A string lacking one of p's characters does not contain p. */
  lemma MissingCharacter(s: string, p: string, k: nat)
    requires k < |p| && p[k] !in s
    ensures !Contains(s, p)
  {
    forall i: nat | i <= |s|
      ensures !OccursAt(s, p, i)
    {
      if i + |p| <= |s| {
        assert s[i..i + |p|][k] == s[i + k];
        assert s[i + k] in s;
      }
    }
  }

  lemma HeadDiffers(s: string, p: string, i: nat)
    requires i < |s| && |p| > 0 && s[i] != p[0]
    ensures !OccursAt(s, p, i)
  {
    if i + |p| <= |s| {
      assert s[i..i + |p|][0] == s[i];
    }
  }

  /** A command whose first character is no `a` cannot be an Add. */
  lemma NoAddHere(c: string)
    requires |c| > 0 && !FoldsTo(c[0], 'a')
    ensures MatchAdd(c).None?
  {
    assert !FoldsTo(c[0 + 0], "add"[0]);
  }

  /** A command that starts with no verb of the View pattern is no date view. */
  lemma NoVerbHere(c: string)
    requires |c| > 0 && !FoldsTo(c[0], 'v') && !FoldsTo(c[0], 's') && !FoldsTo(c[0], 'w')
    ensures MatchViewDate(c).None?
  {
    assert !FoldsTo(c[0 + 0], "view"[0]) && !FoldsTo(c[0 + 0], "show"[0]);
    assert !FoldsTo(c[0 + 0], "what's happening"[0]);
  }

  /** After `show` and its whitespace, a word that is neither a group keyword nor a date
      token leaves the View pattern unmatched. */
  lemma NoGroupAfterShow(c: string, x: nat)
    requires FoldMatchAt(c, 0, "show") && 4 < x < |c| && SpaceEnd(c, 4) == x
    requires !FoldsTo(c[x], 'e') && !FoldsTo(c[x], 's') && !IsDigit(c[x]) && c[x] != 't' && c[x] != 'T'
    ensures MatchViewDate(c).None?
  {
    assert !FoldsTo(c[x + 0], "events"[0]) && !FoldsTo(c[x + 0], "schedule"[0]);
    assert DateTokenLength(c, x) == 0;
    assert ViewDateFrom(c, x).None?;
  }

  /** A command that only the Delete pattern matches is a delete. */
  lemma DeletesId(c: string, id: nat)
    requires MatchAdd(c).None? && MatchViewDate(c).None? && !WantsUpcoming(c)
    requires MatchDelete(c) == Some(id)
    ensures Classify(c) == DeleteIntent(id)
  {
  }

  /** A command no pattern matches and that is no greeting gets the fallback answer. */
  lemma FallsThrough(c: string)
    requires MatchAdd(c).None? && MatchViewDate(c).None? && !WantsUpcoming(c)
    requires MatchDelete(c).None? && !IsGreeting(c)
    ensures Classify(c) == Unrecognized
  {
  }

  /** `show`, one space, then a word that starts no group keyword and no date token: the
      View pattern fails, and without the letters `v` and `y` so does every other test. */
  lemma ShowThenOtherWord(c: string)
    requires |c| > 5 && c[0] == 's' && c[1] == 'h' && c[2] == 'o' && c[3] == 'w' && c[4] == ' '
    requires !IsSpace(c[5]) && !FoldsTo(c[5], 'e') && !FoldsTo(c[5], 's') && !IsDigit(c[5])
    requires c[5] != 't' && c[5] != 'T'
    requires 'v' !in c && 'y' !in c
    ensures Classify(c) == Unrecognized
  {
    NoAddHere(c);
    HeadDiffers(c, "delete", 0);
    assert FoldMatchAt(c, 0, "show");
    assert SpaceEnd(c, 5) == 5;
    assert SpaceEnd(c, 4) == 5;
    NoGroupAfterShow(c, 5);
    NoUpcomingPhrase(c);
    assert c[0] != 'h';
    FallsThrough(c);
  }

  /** "show me tomorrow's schedule", the example the agent's own notes give for a date view,
      is not matched by the View pattern (after `show` the pattern wants `events`,
      `schedule` or a date, not `me`) and falls through to the fallback answer. */
  lemma ShowMeTomorrowsSchedule(c: string)
    requires c == "show me tomorrow's schedule"
    ensures Classify(c) == Unrecognized
  {
    ShowThenOtherWord(c);
  }

  /** A command without the letters `v` and `y` contains none of the upcoming phrases. */
  lemma NoUpcomingPhrase(c: string)
    requires 'v' !in c && 'y' !in c
    ensures !WantsUpcoming(c)
  {
    MissingCharacter(c, "view all events", 0);
    MissingCharacter(c, "show upcoming events", 15);
    MissingCharacter(c, "show my schedule", 6);
  }

  /** "show upcoming schedule", the example the agent's notes give for the upcoming view,
      contains none of the three phrases and falls through to the fallback answer. */
  lemma ShowUpcomingSchedule(c: string)
    requires c == "show upcoming schedule"
    ensures Classify(c) == Unrecognized
  {
    ShowThenOtherWord(c);
  }

  /** "what's happening today" views the clock's day. */
  lemma WhatsHappeningToday(c: string)
    requires c == "what's happening today"
    ensures Classify(c) == ViewDateIntent("today")
  {
    WhatsHappeningMatch(c);
    ViewsToken(c, 17, "today");
  }

  /** A command only the View pattern matches views the date token the pattern found. */
  lemma ViewsToken(c: string, q: nat, token: string)
    requires MatchAdd(c).None? && MatchViewDate(c) == Some(q)
    requires q + |token| <= |c| && DateTokenLength(c, q) == |token| && c[q..q + |token|] == token
    ensures Classify(c) == ViewDateIntent(token)
  {
  }

  lemma WhatsHappeningMatch(c: string)
    requires c == "what's happening today"
    ensures MatchAdd(c).None?
    ensures MatchViewDate(c) == Some(17)
    ensures DateTokenLength(c, 17) == 5 && c[17..22] == "today"
  {
    assert !FoldsTo(c[0 + 0], "add"[0]);
    assert !FoldsTo(c[0 + 0], "view"[0]) && !FoldsTo(c[0 + 0], "show"[0]);
    assert FoldMatchAt(c, 0, "what's happening") && SpaceEnd(c, 16) == 17;
    assert FoldMatchAt(c, 17, "today") && IsDateTokenAt(c, 17, 5);
    assert !FoldsTo(c[17 + 0], "events"[0]) && !FoldsTo(c[17 + 0], "schedule"[0]);
    assert ViewDateFrom(c, 17) == Some(17);
  }

  /** "delete event 5" deletes the event with id 5. */
  lemma DeleteEventFive(c: string)
    requires c == "delete event 5"
    ensures Classify(c) == DeleteIntent(5)
  {
    DeleteFiveMatch(c);
    DeleteFiveNoUpcoming(c);
    DeletesId(c, 5);
  }

  lemma DeleteFiveNoUpcoming(c: string)
    requires c == "delete event 5"
    ensures !WantsUpcoming(c)
  {
    MissingCharacter(c, "view all events", 3);
    MissingCharacter(c, "show upcoming events", 1);
    MissingCharacter(c, "show my schedule", 1);
  }

  lemma DeleteFiveMatch(c: string)
    requires c == "delete event 5"
    ensures MatchAdd(c).None? && MatchViewDate(c).None?
    ensures MatchDelete(c) == Some(5)
  {
    NoAddHere(c);
    NoVerbHere(c);
    DeleteFiveId(c);
  }

  lemma DeleteFiveId(c: string)
    requires c == "delete event 5"
    ensures MatchDelete(c) == Some(5)
  {
    assert c[6] == ' ' && c[7] == 'e' && c[12] == ' ' && c[13] == '5';
    SpaceEndIs(c, 6, 7);
    SpaceEndIs(c, 12, 13);
    assert OccursAt(c, "delete", 0) && OccursAt(c, "event", 7);
    assert DigitEnd(c, 13) == 14 && c[13..14] == "5";
    assert Value("5") == 5;
  }
}

/**
 * The string logic of the SQL agent's evaluation script: `normalize_sql`, which puts a
 * query into a canonical form before an exact-match comparison, and the extraction of the
 * model's answer from the decoded chat, `generated_full.split("assistant")[-1].strip()`.
 */
module SqlEvaluate {
  import opened Wrappers
  import opened PyStr

  // ---------------------------------------------------------------------------------------
  // `str.replace` with one-character arguments

  /** `s.replace(c, "")`: s without the character c, the rest in order. */
  function RemoveChar(s: string, c: char): (r: string)
    ensures forall i :: 0 <= i < |r| ==> r[i] != c && r[i] in s
    ensures c !in s ==> r == s
    decreases |s|
  {
    if s == [] then []
    else
      var rest := RemoveChar(s[1..], c);
      assert forall x :: x in s[1..] ==> x in s;
      if s[0] == c then rest else [s[0]] + rest
  }

  /** Removing c drops every copy of c and keeps every other character as often as it
      occurs. */
  lemma {:induction false} RemoveCharCounts(s: string, c: char)
    ensures multiset(RemoveChar(s, c)) == multiset(s)[c := 0]
    decreases |s|
  {
    if s != [] {
      RemoveCharCounts(s[1..], c);
      assert s == [s[0]] + s[1..];
      assert multiset(s) == multiset{s[0]} + multiset(s[1..]);
    }
  }

  /** Removal works piece by piece, so the kept characters stay in their order. */
  lemma {:induction false} RemoveCharAppend(a: string, b: string, c: char)
    ensures RemoveChar(a + b, c) == RemoveChar(a, c) + RemoveChar(b, c)
    decreases |a|
  {
    if a == [] {
      assert a + b == b;
    } else {
      RemoveCharAppend(a[1..], b, c);
      RemoveCharFront(a, b, c);
    }
  }

  /** The first step of removal from a + b with a non-empty. */
  lemma RemoveCharFront(a: string, b: string, c: char)
    requires a != []
    ensures RemoveChar(a + b, c) == (if a[0] == c then [] else [a[0]]) + RemoveChar(a[1..] + b, c)
  {
    var ab := a + b;
    assert ab[0] == a[0] && ab[1..] == a[1..] + b;
  }

  /** One character is dropped when it is c and kept otherwise. */
  lemma RemoveCharOne(x: char, c: char)
    ensures RemoveChar([x], c) == if x == c then [] else [x]
  {
    assert [x][1..] == [];
  }

  /** `s.replace(a, b)` for two characters. */
  function ReplaceChar(s: string, a: char, b: char): (r: string)
    ensures |r| == |s|
    ensures forall i :: 0 <= i < |s| ==> r[i] == (if s[i] == a then b else s[i])
  {
    seq(|s|, i requires 0 <= i < |s| => if s[i] == a then b else s[i])
  }

  // ---------------------------------------------------------------------------------------
  // `str.split()` without argument and `" ".join`

  /** A token of `str.split()`: a non-empty run of characters that are not whitespace. */
  predicate IsWord(w: string) {
    |w| > 0 && forall k :: 0 <= k < |w| ==> !IsSpace(w[k])
  }

  /** The end of the run of non-whitespace characters that starts at i. */
  function WordEnd(s: string, i: nat): (j: nat)
    requires i <= |s|
    ensures i <= j <= |s|
    ensures forall k :: i <= k < j ==> !IsSpace(s[k])
    ensures j < |s| ==> IsSpace(s[j])
    decreases |s| - i
  {
    if i == |s| || IsSpace(s[i]) then i else WordEnd(s, i + 1)
  }

  /** The tokens of s from index i on: skip whitespace, take a word, repeat. */
  function SplitFrom(s: string, i: nat): seq<string>
    requires i <= |s|
    decreases |s| - i
  {
    var a := SpaceEnd(s, i);
    if a == |s| then []
    else
      var b := WordEnd(s, a);
      [s[a..b]] + SplitFrom(s, b)
  }

  /** One step of the split: the token at the end of the whitespace, then the rest. */
  lemma SplitFromStep(s: string, i: nat)
    requires i <= |s|
    ensures SpaceEnd(s, i) == |s| ==> SplitFrom(s, i) == []
    ensures SpaceEnd(s, i) < |s| ==>
      SplitFrom(s, i) == [s[SpaceEnd(s, i)..WordEnd(s, SpaceEnd(s, i))]] + SplitFrom(s, WordEnd(s, SpaceEnd(s, i)))
  {
  }

  lemma SplitFromAt(s: string, i: nat, a: nat, b: nat)
    requires i <= |s| && SpaceEnd(s, i) == a < |s| && WordEnd(s, a) == b
    ensures SplitFrom(s, i) == [s[a..b]] + SplitFrom(s, b)
  {
  }

  /** Every token is a word, and every character of a token is a character of the text. */
  lemma {:induction false} SplitFromChars(s: string, i: nat)
    requires i <= |s|
    ensures forall k :: 0 <= k < |SplitFrom(s, i)| ==> IsWord(SplitFrom(s, i)[k])
    ensures forall k, m :: 0 <= k < |SplitFrom(s, i)| && 0 <= m < |SplitFrom(s, i)[k]| ==> SplitFrom(s, i)[k][m] in s
    decreases |s| - i
  {
    var a := SpaceEnd(s, i);
    if a < |s| {
      var b := WordEnd(s, a);
      SplitFromChars(s, b);
      assert forall m :: 0 <= m < b - a ==> s[a..b][m] == s[a + m];
    }
  }

  /** `s.split()`: the maximal runs of non-whitespace characters, in order. */
  function SplitWs(s: string): (r: seq<string>)
    ensures forall k :: 0 <= k < |r| ==> IsWord(r[k])
    ensures forall k, m :: 0 <= k < |r| && 0 <= m < |r[k]| ==> r[k][m] in s
  {
    SplitFromChars(s, 0);
    SplitFrom(s, 0)
  }

  /** Text made of the words ws with the runs of whitespace gaps around and between them:
      gaps[0] + ws[0] + gaps[1] + ... + ws[n - 1] + gaps[n]. */
  function Spread(gaps: seq<string>, ws: seq<string>): string
    requires |gaps| == |ws| + 1
    decreases |ws|
  {
    if ws == [] then gaps[0] else gaps[0] + (ws[0] + Spread(gaps[1..], ws[1..]))
  }

  /** n + 1 runs of whitespace, the n - 1 between two words non-empty. */
  predicate Gaps(gaps: seq<string>, n: nat) {
    |gaps| == n + 1
    && (forall k :: 0 <= k < |gaps| ==> AllSpace(gaps[k]))
    && (forall k :: 0 < k < n ==> gaps[k] != [])
  }

  /** Whatever the whitespace around and between the words, `split()` gives the words. */
  lemma {:induction false} SplitWsSpread(gaps: seq<string>, ws: seq<string>)
    requires Gaps(gaps, |ws|) && forall k :: 0 <= k < |ws| ==> IsWord(ws[k])
    ensures SplitWs(Spread(gaps, ws)) == ws
    decreases |ws|
  {
    var s := Spread(gaps, ws);
    if ws == [] {
      SplitAllSpace(s);
    } else {
      var rest := Spread(gaps[1..], ws[1..]);
      GapsTail(gaps, |ws|);
      SplitWsSpread(gaps[1..], ws[1..]);
      SpreadAfterWord(gaps, ws);
      SplitFromGapWord(gaps[0], ws[0], rest, s);
    }
  }

  lemma SplitAllSpace(s: string)
    requires AllSpace(s)
    ensures SplitFrom(s, 0) == []
  {
    SpaceEndWithin(s, 0, |s|);
    SplitFromStep(s, 0);
  }

  /** Dropping the first gap leaves the gaps of the remaining words. */
  lemma GapsTail(gaps: seq<string>, n: nat)
    requires Gaps(gaps, n) && n > 0
    ensures Gaps(gaps[1..], n - 1)
  {
    forall k | 0 < k < n - 1
      ensures gaps[1..][k] != []
    {
      assert gaps[1..][k] == gaps[k + 1];
    }
  }

  /** What follows the first word is empty or starts with whitespace. */
  lemma SpreadAfterWord(gaps: seq<string>, ws: seq<string>)
    requires Gaps(gaps, |ws|) && ws != []
    ensures Spread(gaps, ws) == gaps[0] + (ws[0] + Spread(gaps[1..], ws[1..]))
    ensures Spread(gaps[1..], ws[1..]) == [] || IsSpace(Spread(gaps[1..], ws[1..])[0])
  {
    var rest := Spread(gaps[1..], ws[1..]);
    if |ws| == 1 {
      assert rest == gaps[1];
    } else {
      assert gaps[1] != [] && AllSpace(gaps[1]);
      assert rest == gaps[1] + (ws[1] + Spread(gaps[2..], ws[2..]));
      assert rest[0] == gaps[1][0];
    }
  }

  /** Whitespace, a word, then nothing or whitespace: the first token is the word. */
  lemma SplitFromGapWord(g: string, w: string, rest: string, s: string)
    requires AllSpace(g) && IsWord(w) && (rest == [] || IsSpace(rest[0]))
    requires s == g + (w + rest)
    ensures SplitFrom(s, 0) == [w] + SplitFrom(rest, 0)
  {
    ThreeSlices(g, w, rest, s);
    var b := |g| + |w|;
    GapWordFirst(s, |g|, b, w);
    SuffixSplit(s, b, rest);
  }

  lemma GapWordFirst(s: string, a: nat, b: nat, w: string)
    requires a < b <= |s| && AllSpace(s[..a]) && s[a..b] == w && IsWord(w)
    requires b == |s| || IsSpace(s[b..][0])
    ensures SplitFrom(s, 0) == [w] + SplitFrom(s, b)
  {
    GapThenWord(s, a, b);
    SplitFromAt(s, 0, a, b);
  }

  lemma SuffixSplit(s: string, b: nat, rest: string)
    requires b <= |s| && s[b..] == rest
    ensures SplitFrom(s, b) == SplitFrom(rest, 0)
  {
    assert SameFrom(s, b, rest, 0);
    SplitFromAgree(s, b, rest, 0);
  }

  lemma ThreeSlices(g: string, w: string, rest: string, s: string)
    requires s == g + (w + rest)
    ensures |s| == |g| + |w| + |rest|
    ensures s[..|g|] == g && s[|g|..|g| + |w|] == w && s[|g| + |w|..] == rest
  {
    assert s[|g|..] == w + rest;
  }

  /** The whitespace before a and the word from a to b, followed by whitespace or the end,
      are what the split skips and takes. */
  lemma GapThenWord(s: string, a: nat, b: nat)
    requires a < b <= |s| && AllSpace(s[..a]) && IsWord(s[a..b])
    requires b == |s| || IsSpace(s[b..][0])
    ensures SpaceEnd(s, 0) == a && WordEnd(s, a) == b
  {
    assert forall k :: 0 <= k < a ==> s[k] == s[..a][k];
    SpaceEndWithin(s, 0, a);
    assert s[a] == s[a..b][0];
    assert forall k :: a <= k < b ==> s[k] == s[a..b][k - a];
    WordEndIs(s, a, b);
  }

  /** Every text is its own tokens spread over runs of whitespace. */
  lemma SplitWsGaps(s: string) returns (gaps: seq<string>)
    ensures Gaps(gaps, |SplitWs(s)|) && Spread(gaps, SplitWs(s)) == s
  {
    gaps := SplitFromGaps(s, 0);
    assert s[0..] == s;
  }

  lemma {:induction false} SplitFromGaps(s: string, i: nat) returns (gaps: seq<string>)
    requires i <= |s|
    ensures Gaps(gaps, |SplitFrom(s, i)|) && Spread(gaps, SplitFrom(s, i)) == s[i..]
    ensures gaps[0] == s[i..SpaceEnd(s, i)]
    decreases |s| - i
  {
    var a := SpaceEnd(s, i);
    SplitFromStep(s, i);
    if a == |s| {
      gaps := [s[i..]];
    } else {
      var b := WordEnd(s, a);
      var g := SplitFromGaps(s, b);
      gaps := [s[i..a]] + g;
      GapsCons(s, i, a, b, g);
    }
  }

  /** One step of SplitFromGaps: the gap before the word, then the gaps after it. */
  lemma GapsCons(s: string, i: nat, a: nat, b: nat, g: seq<string>)
    requires i <= a < |s| && a == SpaceEnd(s, i) && b == WordEnd(s, a)
    requires Gaps(g, |SplitFrom(s, b)|) && Spread(g, SplitFrom(s, b)) == s[b..]
    requires g[0] == s[b..SpaceEnd(s, b)]
    ensures SplitFrom(s, i) == [s[a..b]] + SplitFrom(s, b)
    ensures Gaps([s[i..a]] + g, |SplitFrom(s, i)|)
    ensures Spread([s[i..a]] + g, SplitFrom(s, i)) == s[i..]
  {
    SplitFromAt(s, i, a, b);
    var rest := SplitFrom(s, b);
    SpreadOneMore(s[i..a], s[a..b], g, rest);
    SliceInThree(s, i, a, b);
    if rest != [] {
      assert b < |s| && IsSpace(s[b]);
      assert g[0] != [];
    }
    assert forall k :: 0 <= k < a - i ==> s[i..a][k] == s[i + k];
    GapsOneMore(s[i..a], g, |rest|);
  }

  lemma SpreadOneMore(x: string, w: string, g: seq<string>, rest: seq<string>)
    requires |g| == |rest| + 1
    ensures Spread([x] + g, [w] + rest) == x + (w + Spread(g, rest))
  {
    assert ([x] + g)[1..] == g;
    assert ([w] + rest)[1..] == rest;
  }

  lemma GapsOneMore(x: string, g: seq<string>, n: nat)
    requires AllSpace(x) && Gaps(g, n) && (n > 0 ==> g[0] != [])
    ensures Gaps([x] + g, n + 1)
  {
    var gaps := [x] + g;
    assert forall k :: 0 < k < |gaps| ==> gaps[k] == g[k - 1];
  }

  lemma SliceInThree(s: string, i: nat, a: nat, b: nat)
    requires i <= a <= b <= |s|
    ensures s[i..] == s[i..a] + (s[a..b] + s[b..])
  {
    assert s[a..] == s[a..b] + s[b..];
    assert s[i..] == s[i..a] + s[a..];
  }

  /** `" ".join(ws)`. */
  function JoinSpace(ws: seq<string>): string
    decreases |ws|
  {
    if |ws| == 0 then ""
    else if |ws| == 1 then ws[0]
    else ws[0] + " " + JoinSpace(ws[1..])
  }

  /** Text in which every whitespace character is a single space between two other
      characters: no leading or trailing whitespace, no run of two. */
  predicate SingleSpaced(r: string) {
    forall i :: 0 <= i < |r| && IsSpace(r[i]) ==>
      r[i] == ' ' && 0 < i < |r| - 1 && !IsSpace(r[i - 1]) && !IsSpace(r[i + 1])
  }

  /** s1 from i1 on and s2 from i2 on are the same text. */
  predicate SameFrom(s1: string, i1: nat, s2: string, i2: nat) {
    i1 <= |s1| && i2 <= |s2| && |s1| - i1 == |s2| - i2
    && forall k :: i1 <= k < |s1| ==> s1[k] == s2[k - i1 + i2]
  }

  lemma {:induction false} SpaceEndAgree(s1: string, i1: nat, s2: string, i2: nat)
    requires SameFrom(s1, i1, s2, i2)
    ensures SpaceEnd(s1, i1) - i1 == SpaceEnd(s2, i2) - i2
    decreases |s1| - i1
  {
    if i1 < |s1| && IsSpace(s1[i1]) {
      SpaceEndAgree(s1, i1 + 1, s2, i2 + 1);
    }
  }

  lemma {:induction false} WordEndAgree(s1: string, i1: nat, s2: string, i2: nat)
    requires SameFrom(s1, i1, s2, i2)
    ensures WordEnd(s1, i1) - i1 == WordEnd(s2, i2) - i2
    decreases |s1| - i1
  {
    if i1 < |s1| && !IsSpace(s1[i1]) {
      WordEndAgree(s1, i1 + 1, s2, i2 + 1);
    }
  }

  /** The split from an index looks only at the text from that index on. */
  lemma {:induction false} SplitFromAgree(s1: string, i1: nat, s2: string, i2: nat)
    requires SameFrom(s1, i1, s2, i2)
    ensures SplitFrom(s1, i1) == SplitFrom(s2, i2)
    decreases |s1| - i1
  {
    SpaceEndAgree(s1, i1, s2, i2);
    var a1, a2 := SpaceEnd(s1, i1), SpaceEnd(s2, i2);
    if a2 < |s2| {
      assert SameFrom(s1, a1, s2, a2);
      WordEndAgree(s1, a1, s2, a2);
      var b1, b2 := WordEnd(s1, a1), WordEnd(s2, a2);
      assert s1[a1..b1] == s2[a2..b2] by {
        forall m | 0 <= m < b1 - a1
          ensures s1[a1..b1][m] == s2[a2..b2][m]
        {
          assert s1[a1 + m] == s2[a1 + m - i1 + i2];
        }
      }
      assert SameFrom(s1, b1, s2, b2);
      SplitFromAgree(s1, b1, s2, b2);
      SplitFromAt(s1, i1, a1, b1);
      SplitFromAt(s2, i2, a2, b2);
    }
  }

  /** The word that starts at i ends at j. */
  lemma {:induction false} WordEndIs(s: string, i: nat, j: nat)
    requires i <= j <= |s|
    requires forall k :: i <= k < j ==> !IsSpace(s[k])
    requires j < |s| ==> IsSpace(s[j])
    ensures WordEnd(s, i) == j
    decreases j - i
  {
    if i < j {
      WordEndIs(s, i + 1, j);
    }
  }

  /** Splitting a word followed by a space and more text gives the word and then the
      tokens of the rest. */
  lemma SplitWordThenRest(w: string, rest: string)
    requires IsWord(w)
    ensures SplitWs(w + " " + rest) == [w] + SplitWs(rest)
  {
    var s := w + " " + rest;
    WordThenSpace(w, rest, s);
    assert SameFrom(s, |w| + 1, rest, 0);
    SplitFromAgree(s, |w| + 1, rest, 0);
  }

  /** The first token of a word followed by a space is the word; the tokens after it are
      those that follow the space. */
  lemma WordThenSpace(w: string, rest: string, s: string)
    requires IsWord(w) && s == w + " " + rest
    ensures SplitFrom(s, 0) == [w] + SplitFrom(s, |w| + 1)
  {
    assert s[0] == w[0];
    assert SpaceEnd(s, 0) == 0;
    assert s[|w|] == ' ';
    WordEndIs(s, 0, |w|);
    assert s[0..|w|] == w;
    SplitFromAt(s, 0, 0, |w|);
    assert SpaceEnd(s, |w|) == SpaceEnd(s, |w| + 1);
    SplitFromStep(s, |w|);
    SplitFromStep(s, |w| + 1);
  }

  /** Splitting a single word gives it back. */
  lemma SplitOneWord(w: string)
    requires IsWord(w)
    ensures SplitWs(w) == [w]
  {
    assert SpaceEnd(w, 0) == 0;
    assert WordEnd(w, 0) == |w|;
    assert SplitFrom(w, |w|) == [];
    assert SplitFrom(w, 0) == [w[0..|w|]] + SplitFrom(w, |w|);
    assert w[0..|w|] == w;
  }

  /** Joining words with single spaces and splitting the result gives the words back. */
  lemma {:induction false} SplitJoin(ws: seq<string>)
    requires forall k :: 0 <= k < |ws| ==> IsWord(ws[k])
    ensures SplitWs(JoinSpace(ws)) == ws
    decreases |ws|
  {
    if |ws| == 1 {
      SplitOneWord(ws[0]);
    } else if |ws| > 1 {
      SplitJoin(ws[1..]);
      SplitWordThenRest(ws[0], JoinSpace(ws[1..]));
    }
  }

  /** Joined words are single-spaced, and every character of the result is a space or a
      character of one of the words. */
  lemma {:induction false} JoinSingleSpaced(ws: seq<string>)
    requires forall k :: 0 <= k < |ws| ==> IsWord(ws[k])
    ensures SingleSpaced(JoinSpace(ws))
    ensures |ws| > 0 ==> |JoinSpace(ws)| > 0
    ensures forall i :: 0 <= i < |JoinSpace(ws)| ==>
      JoinSpace(ws)[i] == ' ' || exists k, m :: 0 <= k < |ws| && 0 <= m < |ws[k]| && JoinSpace(ws)[i] == ws[k][m]
    decreases |ws|
  {
    if |ws| == 1 {
      assert forall i :: 0 <= i < |ws[0]| ==> JoinSpace(ws)[i] == ws[0][i];
    } else if |ws| > 1 {
      var w, rest := ws[0], JoinSpace(ws[1..]);
      JoinSingleSpaced(ws[1..]);
      var r := w + " " + rest;
      forall i | 0 <= i < |r|
        ensures r[i] == ' ' || exists k, m :: 0 <= k < |ws| && 0 <= m < |ws[k]| && r[i] == ws[k][m]
      {
        if i < |w| {
          assert r[i] == ws[0][i];
        } else if i > |w| {
          assert r[i] == rest[i - |w| - 1];
          if rest[i - |w| - 1] != ' ' {
            var k, m :| 0 <= k < |ws[1..]| && 0 <= m < |ws[1..][k]| && rest[i - |w| - 1] == ws[1..][k][m];
            assert r[i] == ws[k + 1][m];
          }
        }
      }
      assert forall i :: 0 <= i < |w| ==> r[i] == w[i];
      forall i | 0 <= i < |r| && IsSpace(r[i])
        ensures r[i] == ' ' && 0 < i < |r| - 1 && !IsSpace(r[i - 1]) && !IsSpace(r[i + 1])
      {
        if i > |w| {
          var j := i - |w| - 1;
          assert r[i] == rest[j];
          if j > 0 {
            assert r[i - 1] == rest[j - 1];
          }
          assert r[i + 1] == rest[j + 1];
        } else if i == |w| {
          assert r[i - 1] == w[|w| - 1];
          assert r[i + 1] == rest[0];
          assert rest[0] == ws[1][0] by {
            assert JoinSpace(ws[1..])[0] == ws[1..][0][0];
          }
        }
      }
    }
  }

  /** Two texts with whitespace at the same places and the same other characters. */
  predicate SameWords(s: string, t: string) {
    |s| == |t|
    && forall i :: 0 <= i < |s| ==> (IsSpace(s[i]) <==> IsSpace(t[i])) && (!IsSpace(s[i]) ==> s[i] == t[i])
  }

  lemma {:induction false} SpaceEndSame(s: string, t: string, i: nat)
    requires SameWords(s, t) && i <= |s|
    ensures SpaceEnd(s, i) == SpaceEnd(t, i)
    decreases |s| - i
  {
    if i < |s| && IsSpace(s[i]) {
      SpaceEndSame(s, t, i + 1);
    }
  }

  lemma {:induction false} WordEndSame(s: string, t: string, i: nat)
    requires SameWords(s, t) && i <= |s|
    ensures WordEnd(s, i) == WordEnd(t, i)
    decreases |s| - i
  {
    if i < |s| && !IsSpace(s[i]) {
      WordEndSame(s, t, i + 1);
    }
  }

  /** The split sees only where the whitespace is, not which whitespace character it is. */
  lemma {:induction false} SplitFromSame(s: string, t: string, i: nat)
    requires SameWords(s, t) && i <= |s|
    ensures SplitFrom(s, i) == SplitFrom(t, i)
    decreases |s| - i
  {
    SpaceEndSame(s, t, i);
    var a := SpaceEnd(s, i);
    if a < |s| {
      WordEndSame(s, t, a);
      var b := WordEnd(s, a);
      WordSame(s, t, a, b);
      SplitFromSame(s, t, b);
      SplitFromAt(s, i, a, b);
      SplitFromAt(t, i, a, b);
    } else {
      SplitFromStep(s, i);
      SplitFromStep(t, i);
    }
  }

  lemma WordSame(s: string, t: string, a: nat, b: nat)
    requires SameWords(s, t) && a <= b <= |s|
    requires forall k :: a <= k < b ==> !IsSpace(s[k])
    ensures s[a..b] == t[a..b]
  {
    forall k | 0 <= k < b - a
      ensures s[a..b][k] == t[a..b][k]
    {
      assert !IsSpace(s[a + k]);
    }
  }

  /** Turning newlines into spaces changes no token of `split()`. */
  lemma NewlinesAsSpaces(s: string)
    ensures SplitWs(ReplaceChar(s, '\n', ' ')) == SplitWs(s)
  {
    var r := ReplaceChar(s, '\n', ' ');
    assert IsSpace('\n') && IsSpace(' ');
    assert SameWords(r, s);
    SplitFromSame(r, s, 0);
  }

  // ---------------------------------------------------------------------------------------
  // normalize_sql

  /** The three rewrites before the split: `lower()`, drop `;`, newline to space. */
  function Prepare(s: string): string {
    ReplaceChar(RemoveChar(LowerAscii(s), ';'), '\n', ' ')
  }

  /** A character `normalize_sql` never outputs. */
  predicate Banned(c: char) {
    IsUpperAscii(c) || c == ';' || c == '\n'
  }

  /** `normalize_sql(query)` (evaluate.py:8-12), with `None` as `Option.None`: a missing or
      empty query gives the empty string; otherwise the query, lower-cased and without `;`,
      has its whitespace-separated tokens joined by single spaces. */
  function NormalizeSql(query: Option<string>): (r: string)
    ensures query.None? || query.value == [] ==> r == ""
    ensures forall i :: 0 <= i < |r| ==> !Banned(r[i])
    ensures SingleSpaced(r)
    ensures query.Some? ==> SplitWs(r) == SplitWs(Prepare(query.value))
  {
    if query.None? || query.value == [] then ""
    else
      var ws := SplitWs(Prepare(query.value));
      NormalizedShape(query.value);
      JoinSpace(ws)
  }

  /** The facts behind `NormalizeSql`'s contract, for any query text. */
  lemma NormalizedShape(s: string)
    ensures SingleSpaced(JoinSpace(SplitWs(Prepare(s))))
    ensures forall i :: 0 <= i < |JoinSpace(SplitWs(Prepare(s)))| ==> !Banned(JoinSpace(SplitWs(Prepare(s)))[i])
    ensures SplitWs(JoinSpace(SplitWs(Prepare(s)))) == SplitWs(Prepare(s))
  {
    var p := Prepare(s);
    var ws := SplitWs(p);
    PreparedIsClean(s);
    JoinSingleSpaced(ws);
    SplitJoin(ws);
    var r := JoinSpace(ws);
    forall i | 0 <= i < |r|
      ensures !Banned(r[i])
    {
      if r[i] != ' ' {
        var k, m :| 0 <= k < |ws| && 0 <= m < |ws[k]| && r[i] == ws[k][m];
        assert ws[k][m] in p;
      }
    }
  }

  lemma PreparedIsClean(s: string)
    ensures forall c :: c in Prepare(s) ==> !Banned(c)
  {
    var lowered := LowerAscii(s);
    var removed := RemoveChar(lowered, ';');
    forall i | 0 <= i < |removed|
      ensures !IsUpperAscii(removed[i])
    {
      var j :| 0 <= j < |lowered| && lowered[j] == removed[i];
    }
  }

  /** Text already in the canonical form is its own normalization: no upper-case letter, no
      `;`, no newline, and single spaces between its tokens. */
  lemma {:induction false} CanonicalIsFixed(r: string)
    requires forall i :: 0 <= i < |r| ==> !Banned(r[i])
    requires SingleSpaced(r)
    ensures NormalizeSql(Some(r)) == r
  {
    assert LowerAscii(r) == r;
    assert ';' !in r;
    assert Prepare(r) == r;
    if r != [] {
      JoinOfSplit(r);
    }
  }

  /** Single-spaced text is the join of its own tokens. */
  lemma {:induction false} JoinOfSplit(r: string)
    requires SingleSpaced(r)
    ensures JoinSpace(SplitWs(r)) == r
    decreases |r|
  {
    var j := WordEnd(r, 0);
    if r == [] {
    } else if j == |r| {
      assert !IsSpace(r[0]);
      assert r[0..|r|] == r;
      SplitOneWord(r);
    } else {
      var w, rest := r[..j], r[j + 1..];
      assert r[j] == ' ';
      assert j > 0;
      assert r == w + " " + rest;
      forall i | 0 <= i < |rest| && IsSpace(rest[i])
        ensures rest[i] == ' ' && 0 < i < |rest| - 1 && !IsSpace(rest[i - 1]) && !IsSpace(rest[i + 1])
      {
        assert rest[i] == r[j + 1 + i];
        assert r[j + i] == (if i == 0 then ' ' else rest[i - 1]);
        assert j + 1 + i + 1 < |r|;
        assert r[j + 2 + i] == rest[i + 1];
      }
      JoinOfSplit(rest);
      assert IsWord(w);
      SplitWordThenRest(w, rest);
      assert rest != [] by {
        assert j < |r| - 1;
      }
      assert SplitWs(rest) != [] by {
        assert !IsSpace(rest[0]);
        assert SpaceEnd(rest, 0) == 0;
      }
    }
  }

  /** `normalize_sql` is idempotent. */
  lemma NormalizeIdempotent(query: Option<string>)
    ensures NormalizeSql(Some(NormalizeSql(query))) == NormalizeSql(query)
  {
    CanonicalIsFixed(NormalizeSql(query));
  }

  /** The `if not query` guard changes nothing for the empty string: the general path gives
      the empty string too. */
  lemma EmptyGuardAgrees()
    ensures JoinSpace(SplitWs(Prepare(""))) == NormalizeSql(Some(""))
  {
  }

  /** Two answers count as the same exactly when, lower-cased and without `;`, they have
      the same tokens. */
  lemma NormalizedEqualIff(a: string, b: string)
    ensures NormalizeSql(Some(a)) == NormalizeSql(Some(b)) <==> SplitWs(Prepare(a)) == SplitWs(Prepare(b))
  {
    if a == [] { assert SplitWs(Prepare(a)) == []; }
    if b == [] { assert SplitWs(Prepare(b)) == []; }
  }

  // ---------------------------------------------------------------------------------------
  // The answer extraction `generated_full.split("assistant")[-1].strip()`

  /** The leftmost occurrence of p in s at or after i. */
  function FirstOccurrence(s: string, p: string, i: nat): (r: Option<nat>)
    requires i <= |s|
    ensures r.Some? ==> i <= r.value && r.value + |p| <= |s| && OccursAt(s, p, r.value)
    ensures r.Some? ==> forall j :: i <= j < r.value ==> !OccursAt(s, p, j)
    ensures r.None? ==> forall j :: i <= j <= |s| ==> !OccursAt(s, p, j)
    decreases |s| - i
  {
    if OccursAt(s, p, i) then Some(i)
    else if i == |s| then None
    else FirstOccurrence(s, p, i + 1)
  }

  /** `s.split(sep)`: the pieces between the leftmost non-overlapping occurrences of sep. */
  function SplitOn(s: string, sep: string): (r: seq<string>)
    requires |sep| > 0
    ensures |r| > 0
    decreases |s|
  {
    match FirstOccurrence(s, sep, 0)
    case None => [s]
    case Some(k) => [s[..k]] + SplitOn(s[k + |sep|..], sep)
  }

  /** No piece of the split contains the separator. */
  lemma {:induction false} SplitOnPieces(s: string, sep: string)
    requires |sep| > 0
    ensures forall k :: 0 <= k < |SplitOn(s, sep)| ==> !Contains(SplitOn(s, sep)[k], sep)
    decreases |s|
  {
    match FirstOccurrence(s, sep, 0)
    case None =>
      assert forall j: nat :: j <= |s| ==> !OccursAt(s, sep, j);
    case Some(k) =>
      var rest := SplitOn(s[k + |sep|..], sep);
      PieceBeforeFirst(s, sep, k);
      SplitOnPieces(s[k + |sep|..], sep);
      var r := SplitOn(s, sep);
      assert r == [s[..k]] + rest;
      forall i | 0 <= i < |r|
        ensures !Contains(r[i], sep)
      {
        if i > 0 {
          assert r[i] == rest[i - 1];
        }
      }
  }

  lemma PieceBeforeFirst(s: string, sep: string, k: nat)
    requires |sep| > 0 && k + |sep| <= |s|
    requires forall j :: 0 <= j < k ==> !OccursAt(s, sep, j)
    ensures !Contains(s[..k], sep)
  {
    var t := s[..k];
    forall j: nat | j <= |t|
      ensures !OccursAt(t, sep, j)
    {
      if j + |sep| <= |t| {
        assert t[j..j + |sep|] == s[j..j + |sep|];
        assert !OccursAt(s, sep, j);
      }
    }
  }

  /** `sep.join(pieces)`. */
  function JoinWith(pieces: seq<string>, sep: string): string
    decreases |pieces|
  {
    if |pieces| == 0 then ""
    else if |pieces| == 1 then pieces[0]
    else pieces[0] + sep + JoinWith(pieces[1..], sep)
  }

  /** Splitting and joining with the same separator gives the text back. */
  lemma {:induction false} SplitOnJoin(s: string, sep: string)
    requires |sep| > 0
    ensures JoinWith(SplitOn(s, sep), sep) == s
    decreases |s|
  {
    match FirstOccurrence(s, sep, 0)
    case None =>
    case Some(k) =>
      var rest := s[k + |sep|..];
      SplitOnJoin(rest, sep);
      assert s == s[..k] + sep + rest;
  }

  /** The split has more than one piece exactly when the separator occurs. */
  lemma SplitOnCount(s: string, sep: string)
    requires |sep| > 0
    ensures |SplitOn(s, sep)| > 1 <==> Contains(s, sep)
  {
    match FirstOccurrence(s, sep, 0)
    case None =>
    case Some(k) =>
      assert OccursAt(s, sep, k);
  }

  /** The last element of `s.split(sep)`. */
  function LastPiece(s: string, sep: string): string
    requires |sep| > 0
  {
    SplitOn(s, sep)[|SplitOn(s, sep)| - 1]
  }

  lemma LastPieceStep(s: string, sep: string, k: nat)
    requires |sep| > 0 && FirstOccurrence(s, sep, 0) == Some(k)
    ensures LastPiece(s, sep) == LastPiece(s[k + |sep|..], sep)
    ensures |SplitOn(s, sep)| > 1
  {
    var pieces := SplitOn(s[k + |sep|..], sep);
    assert SplitOn(s, sep) == [s[..k]] + pieces;
  }

  lemma SplitOnOne(s: string, sep: string)
    requires |sep| > 0
    ensures |SplitOn(s, sep)| == 1 <==> FirstOccurrence(s, sep, 0).None?
    ensures FirstOccurrence(s, sep, 0).None? ==> LastPiece(s, sep) == s
  {
    match FirstOccurrence(s, sep, 0)
    case None =>
    case Some(k) =>
      LastPieceStep(s, sep, k);
  }

  /** The last piece is the text after the last occurrence of the separator: a suffix of s,
      preceded by the separator whenever there is more than one piece. */
  lemma {:induction false} LastPieceIsTail(s: string, sep: string) returns (n: nat)
    requires |sep| > 0
    ensures n <= |s| && LastPiece(s, sep) == s[n..]
    ensures |SplitOn(s, sep)| > 1 ==> |sep| <= n && OccursAt(s, sep, n - |sep|)
    ensures |SplitOn(s, sep)| == 1 ==> n == 0
    decreases |s|
  {
    match FirstOccurrence(s, sep, 0)
    case None =>
      SplitOnOne(s, sep);
      n := 0;
    case Some(k) =>
      var d := k + |sep|;
      var m := LastPieceIsTail(s[d..], sep);
      LastPieceStep(s, sep, k);
      n := LastPieceAfter(s, sep, d, m, |SplitOn(s[d..], sep)| > 1);
  }

  /** The step of the induction: the last piece of the text after an occurrence of the
      separator that ends at d, found at m there, is found at d + m in the whole text. */
  lemma LastPieceAfter(s: string, sep: string, d: nat, m: nat, many: bool) returns (n: nat)
    requires |sep| > 0 && |sep| <= d <= |s| && OccursAt(s, sep, d - |sep|) && m <= |s| - d
    requires LastPiece(s, sep) == s[d..][m..]
    requires !many ==> m == 0
    requires many ==> |sep| <= m && OccursAt(s[d..], sep, m - |sep|)
    ensures n <= |s| && LastPiece(s, sep) == s[n..]
    ensures |sep| <= n && OccursAt(s, sep, n - |sep|)
  {
    TailStep(s, sep, d, m, many);
    n := d + m;
  }

  /** A suffix of the text after an occurrence of the separator that ends at d is a suffix
      of the whole text, preceded by the separator. */
  lemma TailStep(s: string, sep: string, d: nat, m: nat, many: bool)
    requires |sep| <= d <= |s| && OccursAt(s, sep, d - |sep|) && m <= |s| - d
    requires !many ==> m == 0
    requires many ==> |sep| <= m && OccursAt(s[d..], sep, m - |sep|)
    ensures s[d..][m..] == s[d + m..]
    ensures OccursAt(s, sep, d + m - |sep|)
  {
    if many {
      TailOccurrence(s, sep, d, m - |sep|);
    }
  }

  lemma TailOccurrence(s: string, sep: string, d: nat, at: nat)
    requires d <= |s| && OccursAt(s[d..], sep, at)
    ensures OccursAt(s, sep, d + at)
  {
    assert s[d + at..d + at + |sep|] == s[d..][at..at + |sep|];
  }

  /** `generated_full.split("assistant")[-1].strip()` (evaluate.py:49). */
  function ExtractAnswer(generated: string): (r: string)
    ensures !Contains(r, "assistant")
    ensures r == [] || (!IsSpace(r[0]) && !IsSpace(r[|r| - 1]))
    ensures !Contains(generated, "assistant") ==> r == Strip(generated)
  {
    var last := LastPiece(generated, "assistant");
    var r := Strip(last);
    StrippedLastPiece(generated, last, r);
    r
  }

  lemma StrippedLastPiece(generated: string, last: string, r: string)
    requires last == LastPiece(generated, "assistant") && r == Strip(last)
    ensures !Contains(r, "assistant")
    ensures !Contains(generated, "assistant") ==> r == Strip(generated)
  {
    SplitOnCount(generated, "assistant");
    SplitOnOne(generated, "assistant");
    SplitOnPieces(generated, "assistant");
    NoOccurrenceInSlice(last, "assistant", SpaceEnd(last, 0), SpaceEnd(last, 0) + |r|);
  }

  /** The answer is the stripped text that follows the last "assistant" of the decoded
      chat, or the whole stripped text when the word does not occur. */
  lemma ExtractAnswerIsTail(generated: string)
    ensures exists n :: (0 <= n <= |generated| && ExtractAnswer(generated) == Strip(generated[n..])
      && !Contains(generated[n..], "assistant")
      && (Contains(generated, "assistant") ==> n >= 9 && OccursAt(generated, "assistant", n - 9)))
  {
    var n := LastPieceIsTail(generated, "assistant");
    SplitOnCount(generated, "assistant");
    SplitOnPieces(generated, "assistant");
    assert !Contains(generated[n..], "assistant");
  }
}

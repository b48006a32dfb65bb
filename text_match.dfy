/** The tolerant name matching both search-quality tests use: a name is
    normalised (lower-cased, everything but ASCII letters, digits and
    whitespace turned into a space, whitespace runs collapsed to one space,
    trimmed), the expected name is split into words on spaces, and a
    candidate matches when one word of at least three characters occurs in
    the normalised candidate. */
module TextMatch {
  import opened Common

  predicate IsWordChar(c: char) { IsLower(c) || IsDigit(c) }

  /** `replace(/[^a-z0-9\s]/g, ' ')` on one character. */
  function ScrubChar(c: char): char {
    if IsWordChar(c) || IsSpace(c) then c else ' '
  }

  function Scrub(s: string): (r: string)
    ensures |r| == |s| && forall i :: 0 <= i < |s| ==> r[i] == ScrubChar(s[i])
  {
    seq(|s|, i requires 0 <= i < |s| => ScrubChar(s[i]))
  }

  /** `replace(/\s+/g, ' ')`: `inRun` says the previous character was
      whitespace that has already been written as a space. */
  function Collapse(s: string, inRun: bool): string
    decreases |s|
  {
    if s == [] then []
    else if IsSpace(s[0]) then
      if inRun then Collapse(s[1..], true) else [' '] + Collapse(s[1..], true)
    else [s[0]] + Collapse(s[1..], false)
  }

  /** `normalize`. */
  function Normalize(s: string): string {
    Trim(Collapse(Scrub(ToLower(s)), false))
  }

  predicate NoDoubleSpace(t: string) {
    forall i :: 0 <= i < |t| - 1 ==> !(t[i] == ' ' && t[i + 1] == ' ')
  }

  /** The shape of every normalised string: only `a-z`, `0-9` and single
      spaces, and no space at either end. */
  predicate IsNormalized(t: string) {
    (forall i :: 0 <= i < |t| ==> IsWordChar(t[i]) || t[i] == ' ')
    && NoDoubleSpace(t)
    && (t != [] ==> t[0] != ' ' && t[|t| - 1] != ' ')
  }

  lemma {:induction false} CollapseShape(s: string, inRun: bool)
    requires forall i :: 0 <= i < |s| ==> IsWordChar(s[i]) || IsSpace(s[i])
    ensures var r := Collapse(s, inRun);
            (forall i :: 0 <= i < |r| ==> IsWordChar(r[i]) || r[i] == ' ')
            && NoDoubleSpace(r)
            && (inRun && r != [] ==> r[0] != ' ')
    decreases |s|
  {
    if s != [] {
      CollapseShape(s[1..], IsSpace(s[0]));
    }
  }

  lemma SliceKeeps(r: string, c: string, off: int)
    requires OccursAt(r, c, off)
    ensures forall i :: 0 <= i < |r| ==> r[i] == c[off + i]
  {
    forall i | 0 <= i < |r| ensures r[i] == c[off + i] {
      assert r[i] == c[off..off + |r|][i];
    }
  }

  /** `normalize` always yields a normalised string. */
  lemma NormalizeIsNormalized(s: string)
    ensures IsNormalized(Normalize(s))
  {
    var scrubbed := Scrub(ToLower(s));
    assert forall i :: 0 <= i < |scrubbed| ==> IsWordChar(scrubbed[i]) || IsSpace(scrubbed[i]);
    CollapseShape(scrubbed, false);
    TrimCollapsed(Collapse(scrubbed, false));
  }

  /** Trimming a collapsed string leaves it normalised. */
  lemma TrimCollapsed(c: string)
    requires forall i :: 0 <= i < |c| ==> IsWordChar(c[i]) || c[i] == ' '
    requires NoDoubleSpace(c)
    ensures IsNormalized(Trim(c))
  {
    var r := Trim(c);
    TrimShape(c);
    var off :| 0 <= off <= |c| - |r| && OccursAt(r, c, off);
    SliceKeeps(r, c, off);
    forall i | 0 <= i < |r| - 1 ensures !(r[i] == ' ' && r[i + 1] == ' ') {
      assert r[i] == c[off + i] && r[i + 1] == c[off + i + 1];
    }
  }

  lemma {:induction false} CollapseFixes(t: string, inRun: bool)
    requires forall i :: 0 <= i < |t| ==> IsWordChar(t[i]) || t[i] == ' '
    requires NoDoubleSpace(t)
    requires inRun && t != [] ==> t[0] != ' '
    ensures Collapse(t, inRun) == t
    decreases |t|
  {
    if t != [] {
      CollapseFixes(t[1..], t[0] == ' ');
      assert t == [t[0]] + t[1..];
    }
  }

  /** A normalised string is its own normal form. */
  lemma NormalizeFixes(t: string)
    requires IsNormalized(t)
    ensures Normalize(t) == t
  {
    ToLowerNoUpper(t);
    assert Scrub(t) == t;
    CollapseFixes(t, false);
    TrimShape(t);
  }

  /** Normalising twice gives the same as normalising once. */
  lemma NormalizeIdempotent(s: string)
    ensures Normalize(Normalize(s)) == Normalize(s)
  {
    NormalizeIsNormalized(s);
    NormalizeFixes(Normalize(s));
  }

  /** `split(' ')`, continuing a word `cur` already begun: every space ends
      a word, so the empty string gives one empty word. */
  function SplitFrom(s: string, cur: string): (ws: seq<string>)
    ensures |ws| >= 1
    decreases |s|
  {
    if s == [] then [cur]
    else if s[0] == ' ' then [cur] + SplitFrom(s[1..], [])
    else SplitFrom(s[1..], cur + [s[0]])
  }

  function Words(s: string): seq<string> {
    SplitFrom(s, [])
  }

  /** `ws.join(' ')`. */
  function Join(ws: seq<string>): string
    requires |ws| >= 1
    decreases |ws|
  {
    if |ws| == 1 then ws[0] else ws[0] + " " + Join(ws[1..])
  }

  predicate NoSpace(w: string) {
    forall i :: 0 <= i < |w| ==> w[i] != ' '
  }

  lemma {:induction false} JoinSplitFrom(s: string, cur: string)
    ensures Join(SplitFrom(s, cur)) == cur + s
    ensures NoSpace(cur) ==> forall k :: 0 <= k < |SplitFrom(s, cur)| ==> NoSpace(SplitFrom(s, cur)[k])
    decreases |s|
  {
    if s == [] {
      assert cur + s == cur;
    } else if s[0] == ' ' {
      JoinSplitFrom(s[1..], []);
      assert cur + s == cur + " " + ([] + s[1..]);
      var ws := SplitFrom(s, cur);
      assert ws[1..] == SplitFrom(s[1..], []);
    } else {
      JoinSplitFrom(s[1..], cur + [s[0]]);
      assert cur + [s[0]] + s[1..] == cur + s;
    }
  }

  /** Joining the words with single spaces gives back the string. */
  lemma JoinWords(s: string)
    ensures Join(Words(s)) == s
    ensures forall k :: 0 <= k < |Words(s)| ==> NoSpace(Words(s)[k])
  {
    JoinSplitFrom(s, []);
  }

  lemma {:induction false} SplitFromWord(w: string, rest: string, cur: string)
    requires NoSpace(w)
    ensures SplitFrom(w + rest, cur) == SplitFrom(rest, cur + w)
    decreases |w|
  {
    if w == [] {
      assert w + rest == rest && cur + w == cur;
    } else {
      assert (w + rest)[1..] == w[1..] + rest;
      SplitFromWord(w[1..], rest, cur + [w[0]]);
      assert cur + [w[0]] + w[1..] == cur + w;
    }
  }

  /** Splitting a join of space-free words gives back the words. */
  lemma {:induction false} WordsJoin(ws: seq<string>)
    requires |ws| >= 1 && forall k :: 0 <= k < |ws| ==> NoSpace(ws[k])
    ensures Words(Join(ws)) == ws
    decreases |ws|
  {
    if |ws| == 1 {
      SplitFromWord(ws[0], [], []);
      assert ws[0] + [] == ws[0];
    } else {
      WordsJoin(ws[1..]);
      var rest := Join(ws[1..]);
      assert ws[0] + " " + rest == ws[0] + ([' '] + rest);
      SplitFromWord(ws[0], [' '] + rest, []);
      assert ([' '] + rest)[1..] == rest;
      assert [] + ws[0] == ws[0];
      assert ws == [ws[0]] + ws[1..];
    }
  }

  /** Each word occurs in the joined string. */
  lemma {:induction false} JoinContains(ws: seq<string>, k: nat)
    requires |ws| >= 1 && k < |ws|
    ensures IsSubstring(ws[k], Join(ws))
    decreases |ws|
  {
    if k == 0 {
      if |ws| == 1 {
        SubstringOfSelf(ws[0]);
      } else {
        assert Join(ws)[0..|ws[0]|] == ws[0];
        assert OccursAt(ws[0], Join(ws), 0);
      }
    } else {
      JoinContains(ws[1..], k - 1);
      var rest := Join(ws[1..]);
      var off := |ws[0]| + 1;
      assert Join(ws)[off..off + |rest|] == rest;
      assert OccursAt(rest, Join(ws), off);
      SubstringTransitive(ws[k], rest, Join(ws));
    }
  }

  /** Every word of a string occurs in it. */
  lemma WordsOccur(s: string, k: nat)
    requires k < |Words(s)|
    ensures IsSubstring(Words(s)[k], s)
  {
    JoinWords(s);
    JoinContains(Words(s), k);
  }

  /** `nameMatches`: some word of length at least 3 of the normalised
      expected name occurs in the normalised candidate. */
  predicate NameMatches(candidate: string, expected: string) {
    var cand := Normalize(candidate);
    var tokens := Words(Normalize(expected));
    exists k | 0 <= k < |tokens| :: |tokens[k]| >= 3 && IsSubstring(tokens[k], cand)
  }

  lemma SubstringShorter(t: string, s: string)
    requires IsSubstring(t, s)
    ensures |t| <= |s|
  {
  }

  /** A candidate can match only when both normalised names have at least
      three characters: an expected name shorter than that matches nothing. */
  lemma MatchNeedsThreeChars(candidate: string, expected: string)
    requires NameMatches(candidate, expected)
    ensures |Normalize(expected)| >= 3 && |Normalize(candidate)| >= 3
  {
    var tokens := Words(Normalize(expected));
    var k :| 0 <= k < |tokens| && |tokens[k]| >= 3 && IsSubstring(tokens[k], Normalize(candidate));
    WordsOccur(Normalize(expected), k);
    SubstringShorter(tokens[k], Normalize(expected));
    SubstringShorter(tokens[k], Normalize(candidate));
  }

  /** A name matches itself exactly when it has a word of at least three
      characters. */
  lemma MatchesItself(name: string)
    ensures NameMatches(name, name) <==> exists k :: 0 <= k < |Words(Normalize(name))| && |Words(Normalize(name))[k]| >= 3
  {
    var tokens := Words(Normalize(name));
    if exists k :: 0 <= k < |tokens| && |tokens[k]| >= 3 {
      var k :| 0 <= k < |tokens| && |tokens[k]| >= 3;
      WordsOccur(Normalize(name), k);
    }
  }

  /** Matching looks only at the normal forms: normalising either name first
      changes nothing. */
  lemma MatchIgnoresNormalization(candidate: string, expected: string)
    ensures NameMatches(Normalize(candidate), Normalize(expected)) == NameMatches(candidate, expected)
  {
    NormalizeIdempotent(candidate);
    NormalizeIdempotent(expected);
  }

  /** A match survives extending the candidate: if the candidate's normal
      form occurs in another's, the other matches too. */
  lemma MatchExtends(candidate: string, larger: string, expected: string)
    requires NameMatches(candidate, expected)
    requires IsSubstring(Normalize(candidate), Normalize(larger))
    ensures NameMatches(larger, expected)
  {
    var tokens := Words(Normalize(expected));
    var k :| 0 <= k < |tokens| && |tokens[k]| >= 3 && IsSubstring(tokens[k], Normalize(candidate));
    SubstringTransitive(tokens[k], Normalize(candidate), Normalize(larger));
  }

  lemma LiteralNormalForm(t: string)
    requires t == "apple pie" || t == "idared apple"
    ensures Normalize(t) == t
  {
    forall i | 0 <= i < |t| ensures IsWordChar(t[i]) || t[i] == ' ' {
    }
    NormalizeFixes(t);
  }

  lemma ExampleWords()
    ensures Words("idared apple") == ["idared", "apple"]
  {
    assert Join(["idared", "apple"]) == "idared apple";
    WordsJoin(["idared", "apple"]);
  }

  /** The worked example: the expected "idared apple" has the word "apple",
      which occurs in "apple pie", so the pie counts as a match. */
  lemma IdaredAppleExample()
    ensures NameMatches("apple pie", "idared apple")
  {
    LiteralNormalForm("apple pie");
    LiteralNormalForm("idared apple");
    ExampleWords();
    assert OccursAt("apple", "apple pie", 0);
    assert |Words(Normalize("idared apple"))[1]| >= 3;
  }
}

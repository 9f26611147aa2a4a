/** match_wildcard: an iterative glob matcher with one backtrack point. */
module Wildcard {

  /** The documented meaning: '*' matches zero or more characters, '?' exactly one. */
  predicate Match(p: string, s: string)
    decreases |p| + |s|
  {
    if p == [] then s == []
    else if p[0] == '*' then Match(p[1..], s) || (s != [] && Match(p, s[1..]))
    else s != [] && (p[0] == '?' || p[0] == s[0]) && Match(p[1..], s[1..])
  }

  /** What the code decides: as above, except that the empty rest of a string is matched only by
      the empty pattern and by a single '*'. */
  predicate Accepts(p: string, s: string)
    decreases |p| + |s|
  {
    if p == [] then s == []
    else if s == [] then p == "*"
    else if p[0] == '*' then p == "*" || Accepts(p[1..], s) || Accepts(p, s[1..])
    else (p[0] == '?' || p[0] == s[0]) && Accepts(p[1..], s[1..])
  }

  predicate Fits(w: string, s: string) {
    |w| <= |s| && forall i | 0 <= i < |w| :: w[i] != '*' && (w[i] == '?' || w[i] == s[i])
  }

  predicate Starless(w: string) {
    forall i | 0 <= i < |w| :: w[i] != '*'
  }

  /** A part without stars is matched character by character. */
  lemma {:induction false} StarlessPrefix(w: string, r: string, s: string)
    requires Starless(w)
    ensures Fits(w, s) ==> (Accepts(w + r, s) <==> Accepts(r, s[|w|..]))
    ensures Accepts(w + r, s) ==> Fits(w, s)
    decreases |w|
  {
    if w == [] {
      assert w + r == r;
    } else {
      assert (w + r)[0] == w[0] && (w + r)[1..] == w[1..] + r;
      if s != [] {
        StarlessPrefix(w[1..], r, s[1..]);
        if Fits(w, s) {
          assert Fits(w[1..], s[1..]);
          assert s[1..][|w| - 1..] == s[|w|..];
        }
        if Accepts(w + r, s) {
          assert forall i | 1 <= i < |w| :: w[i] == w[1..][i - 1] && s[i] == s[1..][i - 1];
        }
      }
    }
  }

  /** A leading star absorbs any number of characters. */
  lemma {:induction false} StarAbsorbs(p: string, s: string, k: nat)
    requires p != [] && p[0] == '*' && k <= |s| && Accepts(p, s[k..])
    ensures Accepts(p, s)
    decreases k
  {
    if k == 0 {
      assert s[0..] == s;
    } else {
      assert s[1..][k - 1..] == s[k..];
      StarAbsorbs(p, s[1..], k - 1);
    }
  }

  /** If a starred pattern accepts, the pattern after the star accepts some suffix. */
  lemma {:induction false} StarWitness(p: string, s: string) returns (k: nat)
    requires |p| > 1 && p[0] == '*' && s != [] && Accepts(p, s)
    ensures k < |s| && Accepts(p[1..], s[k..])
    decreases |s|
  {
    if Accepts(p[1..], s) {
      k := 0;
      assert s[0..] == s;
    } else {
      k := StarWitness(p, s[1..]);
      assert s[1..][k..] == s[k + 1..];
      k := k + 1;
    }
  }

  /** Meeting the next star settles the part before it: earlier choices need not be revisited. */
  lemma NextStar(x: string, w: string, r: string, s: string)
    requires x == w + r && r != [] && r[0] == '*' && Fits(w, s) && |w| < |s|
    ensures Accepts("*" + x, s) <==> Accepts(r, s[|w|..])
  {
    var p := "*" + x;
    assert p[1..] == x;
    StarlessPrefix(w, r, s);
    if Accepts(p, s) {
      var k := StarWitness(p, s);
      StarlessPrefix(w, r, s[k..]);
      assert s[k..][|w|..] == s[|w|..][k..];
      StarAbsorbs(r, s[|w|..], k);
    }
  }

  /** At the end of the string no later start of the last part can succeed. */
  lemma LastPart(x: string, w: string, r: string, s: string)
    requires x == w + r && x != [] && x[0] != '*' && Fits(w, s) && |w| == |s|
    ensures Accepts("*" + x, s) <==> Accepts(r, [])
  {
    var p := "*" + x;
    assert p[1..] == x;
    StarlessPrefix(w, r, s);
    assert s[|w|..] == [];
    if s == [] {
      assert w == [];
    } else if Accepts(p, s) {
      var k := StarWitness(p, s);
      StarlessPrefix(w, r, s[k..]);
      assert s[0..] == s;
    }
  }

  /** The scan so far: everything between the retry point and the scan position fits, and the
      answer for the whole input is the answer for what remains from the retry point. */
  ghost predicate Scan(pattern: string, text: string, star: bool, pat: nat, p: nat, str: nat, s: nat) {
    && str <= s <= |text| && pat <= p <= |pattern| && s - str == p - pat && Fits(pattern[pat..p], text[str..])
    && (!star ==> str == 0 && pat == 0)
    && (star ==> 0 < pat < |pattern| && pattern[pat - 1] == '*' && (s == |text| ==> pattern[pat] != '*'))
    && Accepts(pattern, text) == Accepts(if star then pattern[pat - 1..] else pattern, text[str..])
  }

  lemma Split(pattern: string, text: string, pat: nat, p: nat, str: nat, s: nat)
    requires pat <= p <= |pattern| && str <= s <= |text| && s - str == p - pat && Fits(pattern[pat..p], text[str..])
    ensures Starless(pattern[pat..p]) && pattern[pat..] == pattern[pat..p] + pattern[p..] &&
      text[str..][p - pat..] == text[s..]
    ensures p > pat ==> pattern[pat] != '*'
  {
    assert p > pat ==> pattern[pat..p][0] == pattern[pat];
  }

  lemma ScanStart(pattern: string, text: string)
    ensures Scan(pattern, text, false, 0, 0, 0, 0)
  {
    assert text[0..] == text;
  }

  lemma ScanAdvance(pattern: string, text: string, star: bool, pat: nat, p: nat, str: nat, s: nat)
    requires Scan(pattern, text, star, pat, p, str, s) && s < |text| && p < |pattern|
    requires pattern[p] != '*' && (pattern[p] == '?' || pattern[p] == text[s])
    ensures Scan(pattern, text, star, pat, p + 1, str, s + 1)
  {
    hide Accepts;
    var w := pattern[pat..p + 1];
    assert forall i | 0 <= i < |w| - 1 :: w[i] == pattern[pat..p][i];
    assert w[0] == pattern[pat];
  }

  lemma SettleAtStar(pattern: string, text: string, star: bool, pat: nat, p: nat, str: nat, s: nat)
    requires Scan(pattern, text, star, pat, p, str, s) && s < |text| && p < |pattern| && pattern[p] == '*'
    ensures Accepts(pattern, text) == Accepts(pattern[p..], text[s..])
  {
    hide Accepts, Fits, Starless;
    Split(pattern, text, pat, p, str, s);
    var w := pattern[pat..p];
    if star {
      assert pattern[pat - 1..] == "*" + pattern[pat..];
      NextStar(pattern[pat..], w, pattern[p..], text[str..]);
    } else {
      StarlessPrefix(w, pattern[p..], text[str..]);
      assert pattern[0..] == pattern;
    }
  }

  lemma ScanStar(pattern: string, text: string, star: bool, pat: nat, p: nat, str: nat, s: nat)
    requires Scan(pattern, text, star, pat, p, str, s) && s < |text| && p < |pattern| && pattern[p] == '*'
    ensures p + 1 < |pattern| ==> Scan(pattern, text, true, p + 1, p + 1, s, s)
    ensures p + 1 == |pattern| ==> Accepts(pattern, text)
  {
    hide Accepts;
    SettleAtStar(pattern, text, star, pat, p, str, s);
    if p + 1 == |pattern| {
      assert pattern[p..] == "*";
      StarAccepts(text[s..]);
    }
  }

  lemma StarAccepts(s: string)
    ensures Accepts("*", s)
  {
  }

  lemma ScanMismatch(pattern: string, text: string, star: bool, pat: nat, p: nat, str: nat, s: nat)
    requires Scan(pattern, text, star, pat, p, str, s) && s < |text|
    requires p < |pattern| ==> pattern[p] != '*' && pattern[p] != '?' && pattern[p] != text[s]
    ensures !star ==> !Accepts(pattern, text)
    ensures star ==> Scan(pattern, text, true, pat, pat, str + 1, str + 1)
  {
    Split(pattern, text, pat, p, str, s);
    var w, rest := pattern[pat..p], pattern[p..];
    assert !Accepts(rest, text[s..]);
    StarlessPrefix(w, rest, text[str..]);
    if star {
      assert pattern[pat - 1..][1..] == pattern[pat..];
      assert text[str..][1..] == text[str + 1..];
    } else {
      assert pattern[0..] == pattern;
    }
  }

  lemma ScanEnd(pattern: string, text: string, star: bool, pat: nat, p: nat, str: nat)
    requires Scan(pattern, text, star, pat, p, str, |text|)
    ensures Accepts(pattern, text) == (pattern[p..] == [] || pattern[p..] == "*")
  {
    Split(pattern, text, pat, p, str, |text|);
    var w, rest := pattern[pat..p], pattern[p..];
    if star {
      assert pattern[pat - 1..] == "*" + pattern[pat..];
      LastPart(pattern[pat..], w, rest, text[str..]);
    } else {
      assert pattern[0..] == pattern;
      StarlessPrefix(w, rest, text[str..]);
    }
  }

  /** match_wildcard, with positions for the four pointers: `s`, `p` scan, `str`, `pat` are where
      a retry starts. */
  method MatchWildcard(pattern: string, text: string) returns (r: bool)
    ensures r == Accepts(pattern, text)
  {
    hide Accepts, Scan;
    var s, p, str, pat, star := 0, 0, 0, 0, false;
    ScanStart(pattern, text);
    while s < |text|
      invariant 0 <= str <= s <= |text| && 0 <= pat <= p <= |pattern|
      invariant Scan(pattern, text, star, pat, p, str, s)
      decreases |pattern| - pat, |text| - str, |text| - s, if star then 0 else 1
    {
      if p < |pattern| && pattern[p] == '?' {
        ScanAdvance(pattern, text, star, pat, p, str, s);
        s, p := s + 1, p + 1;
      } else if p < |pattern| && pattern[p] == '*' {
        ScanStar(pattern, text, star, pat, p, str, s);
        star, str := true, s;
        p := p + 1;
        if p == |pattern| { return true; }
        pat := p;
      } else if p < |pattern| && text[s] == pattern[p] {
        ScanAdvance(pattern, text, star, pat, p, str, s);
        s, p := s + 1, p + 1;
      } else {
        ScanMismatch(pattern, text, star, pat, p, str, s);
        if !star { return false; }
        str := str + 1;
        s, p := str, pat;
      }
    }
    ScanEnd(pattern, text, star, pat, p, str);
    if p < |pattern| && pattern[p] == '*' {
      p := p + 1;
    }
    return p == |pattern|;
  }

  // ----- how this compares with the documented meaning

  predicate EndsWithTwoStars(p: string) {
    |p| >= 2 && p[|p| - 1] == '*' && p[|p| - 2] == '*'
  }

  lemma {:induction false} SingleStar(s: string)
    ensures Match("*", s)
    decreases |s|
  {
    if s != [] { SingleStar(s[1..]); }
  }

  /** Whatever the code accepts is a match, for every pattern and string. */
  lemma {:induction false} AcceptedMatches(p: string, s: string)
    requires Accepts(p, s)
    ensures Match(p, s)
    decreases |p| + |s|
  {
    if p == "*" {
      SingleStar(s);
    } else if p != [] && p[0] == '*' {
      if Accepts(p[1..], s) { AcceptedMatches(p[1..], s); } else { AcceptedMatches(p, s[1..]); }
    } else if p != [] {
      AcceptedMatches(p[1..], s[1..]);
    }
  }

  lemma {:induction false} EmptyMatched(p: string)
    requires Match(p, [])
    ensures forall i | 0 <= i < |p| :: p[i] == '*'
    decreases |p|
  {
    if p != [] {
      EmptyMatched(p[1..]);
      assert forall i | 1 <= i < |p| :: p[i] == p[1..][i - 1];
    }
  }

  /** Every match is accepted when the pattern does not end in two stars. */
  lemma {:induction false} MatchesAccepted(p: string, s: string)
    requires Match(p, s) && !EndsWithTwoStars(p)
    ensures Accepts(p, s)
    decreases |p| + |s|
  {
    if p == [] {
    } else if s == [] {
      EmptyMatched(p);
    } else if p[0] == '*' {
      if |p| > 1 {
        if Match(p[1..], s) { MatchesAccepted(p[1..], s); } else { MatchesAccepted(p, s[1..]); }
      }
    } else {
      MatchesAccepted(p[1..], s[1..]);
    }
  }

  /** A string of the shortest length a pattern matches. */
  function Shortest(p: string): string {
    if p == [] then [] else if p[0] == '*' then Shortest(p[1..])
      else [if p[0] == '?' then 'x' else p[0]] + Shortest(p[1..])
  }

  lemma {:induction false} ShortestMatches(p: string)
    ensures Match(p, Shortest(p))
    decreases |p|
  {
    if p != [] {
      ShortestMatches(p[1..]);
      if p[0] != '*' { assert Shortest(p)[1..] == Shortest(p[1..]); }
    }
  }

  /** For a pattern ending in two stars the code wants one character more than the shortest match has. */
  lemma {:induction false} ShortestRefused(p: string, s: string)
    requires EndsWithTwoStars(p) && |s| <= |Shortest(p)|
    ensures !Accepts(p, s)
    decreases |p| + |s|
  {
    if s != [] {
      if p[0] == '*' {
        if |p| == 2 {
          ShortestOfTwoStars(p);
        } else {
          ShortestRefused(p[1..], s);
          ShortestRefused(p, s[1..]);
        }
      } else {
        ShortestRefused(p[1..], s[1..]);
      }
    }
  }

  lemma ShortestOfTwoStars(p: string)
    requires |p| == 2 && EndsWithTwoStars(p)
    ensures Shortest(p) == []
  {
    assert Shortest(p[1..]) == Shortest(p[1..][1..]);
  }

  /** The code decides a pattern as documented, on every string, exactly when the pattern does not
      end in two stars. */
  lemma DocumentedMeaningIff(p: string)
    ensures (forall s: string :: Accepts(p, s) == Match(p, s)) <==> !EndsWithTwoStars(p)
  {
    forall s: string | !EndsWithTwoStars(p) ensures Accepts(p, s) == Match(p, s) {
      if Accepts(p, s) { AcceptedMatches(p, s); }
      if Match(p, s) { MatchesAccepted(p, s); }
    }
    if EndsWithTwoStars(p) {
      ShortestMatches(p);
      ShortestRefused(p, Shortest(p));
      assert Accepts(p, Shortest(p)) != Match(p, Shortest(p));
    }
  }

  /** The smallest surprise: "a**" against "a". */
  lemma TwoStarsRefuseEmptyRest()
    ensures Match("a**", "a") && !Accepts("a**", "a")
  {
    assert "a**"[1..] == "**" && "a"[1..] == [] && "**"[1..] == "*" && "*"[1..] == [];
    assert Match("**", []);
  }
}

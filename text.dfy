/** String helpers shared by both scripts: the placeholder marker, literal search
    (`re.search` with a pattern that has no special characters), left-to-right
    non-overlapping replacement (`re.sub` with such a pattern) and `str.join`. */
module Text {

  /** The placeholder that both scripts substitute with the argument value. */
  const Marker: string := "%%%"

  predicate StartsWith(s: string, p: string) {
    |p| <= |s| && s[..|p|] == p
  }

  /** `pat` occurs in `s` at index `i`. */
  predicate MatchAt(s: string, pat: string, i: int) {
    0 <= i && i + |pat| <= |s| && s[i..i + |pat|] == pat
  }

  /** `pat` occurs somewhere in `s`: the scan `re.search` performs. */
  predicate Contains(s: string, pat: string)
    decreases |s|
  {
    StartsWith(s, pat) || (|s| > 0 && Contains(s[1..], pat))
  }

  /** The scan agrees with the positional definition of an occurrence, in both directions. */
  lemma {:induction false} ContainsIff(s: string, pat: string)
    ensures Contains(s, pat) <==> exists i :: MatchAt(s, pat, i)
    decreases |s|
  {
    if Contains(s, pat) {
      if StartsWith(s, pat) {
        assert MatchAt(s, pat, 0);
      } else {
        ContainsIff(s[1..], pat);
        var i :| MatchAt(s[1..], pat, i);
        assert s[1..][i..i + |pat|] == s[i + 1..i + 1 + |pat|];
        assert MatchAt(s, pat, i + 1);
      }
    }
    if exists i :: MatchAt(s, pat, i) {
      var i :| MatchAt(s, pat, i);
      if i > 0 {
        assert s[1..][i - 1..i - 1 + |pat|] == s[i..i + |pat|];
        assert MatchAt(s[1..], pat, i - 1);
        ContainsIff(s[1..], pat);
      } else {
        assert StartsWith(s, pat);
      }
    }
  }

  /** Every non-overlapping occurrence of `pat`, found scanning left to right, replaced
      by `rep`; when a window does not match, one character is copied and the scan
      moves on by one. Text without an occurrence comes back unchanged. */
  function ReplaceAll(s: string, pat: string, rep: string): (r: string)
    requires pat != []
    ensures !Contains(s, pat) ==> r == s
    decreases |s|
  {
    if |s| < |pat| then s
    else if s[..|pat|] == pat then rep + ReplaceAll(s[|pat|..], pat, rep)
    else [s[0]] + ReplaceAll(s[1..], pat, rep)
  }

  /** `sep.join(parts)`. */
  function Join(parts: seq<string>, sep: string): string
    decreases |parts|
  {
    if |parts| == 0 then ""
    else if |parts| == 1 then parts[0]
    else parts[0] + sep + Join(parts[1..], sep)
  }

  lemma JoinCons(a: string, parts: seq<string>, sep: string)
    requires |parts| >= 1
    ensures Join([a] + parts, sep) == a + sep + Join(parts, sep)
  {
    assert ([a] + parts)[1..] == parts;
  }

  /** Number of leading copies of `c` in `s`. */
  function LeadingRun(s: string, c: char): (n: nat)
    ensures n <= |s|
    decreases |s|
  {
    if s != [] && s[0] == c then 1 + LeadingRun(s[1..], c) else 0
  }

  lemma StartsWithMarkerRun(s: string)
    requires StartsWith(s, Marker)
    ensures LeadingRun(s, '%') == 3 + LeadingRun(s[3..], '%')
  {
    assert s[..3] == Marker;
    var s1, s2 := s[1..], s[1..][1..];
    assert s2[1..] == s[3..];
    assert s[0] == '%' && s1[0] == '%' && s2[0] == '%';
    assert LeadingRun(s, '%') == 1 + LeadingRun(s1, '%');
    assert LeadingRun(s1, '%') == 1 + LeadingRun(s2, '%');
  }

  /** A prefix without '%' cannot help form a marker. */
  lemma {:induction false} NoMarkerAfterPrefix(u: string, t: string)
    requires '%' !in u
    requires !Contains(t, Marker)
    ensures !Contains(u + t, Marker)
    decreases |u|
  {
    if u == [] {
      assert u + t == t;
    } else {
      assert (u + t)[0] == u[0];
      assert !StartsWith(u + t, Marker);
      assert (u + t)[1..] == u[1..] + t;
      NoMarkerAfterPrefix(u[1..], t);
    }
  }

  lemma {:induction false} ShortHasNoMarker(s: string)
    requires |s| < |Marker|
    ensures !Contains(s, Marker)
    decreases |s|
  {
    if s != [] {
      ShortHasNoMarker(s[1..]);
    }
  }

  /** Replacing the marker by text without '%' never lengthens a leading run of '%'. */
  lemma {:induction false} ReplaceKeepsRunShort(s: string, rep: string)
    requires '%' !in rep
    ensures LeadingRun(ReplaceAll(s, Marker, rep), '%') <= LeadingRun(s, '%')
    decreases |s|
  {
    if |s| < |Marker| {
    } else if s[..|Marker|] == Marker {
      ReplaceKeepsRunShort(s[|Marker|..], rep);
      StartsWithMarkerRun(s);
      ReplacedRunAfterRep(rep, ReplaceAll(s[|Marker|..], Marker, rep));
    } else {
      ReplaceKeepsRunShort(s[1..], rep);
      var t := ReplaceAll(s[1..], Marker, rep);
      assert ([s[0]] + t)[1..] == t;
      assert s == [s[0]] + s[1..];
    }
  }

  lemma ReplacedRunAfterRep(rep: string, t: string)
    requires '%' !in rep
    ensures LeadingRun(rep + t, '%') <= LeadingRun(t, '%')
  {
    if rep == [] {
      assert rep + t == t;
    } else {
      assert (rep + t)[0] == rep[0];
    }
  }

  /** After `re.sub("%%%", arg, s)` with an argument free of '%', no marker is left. */
  lemma {:induction false} ReplaceAllLeavesNoMarker(s: string, rep: string)
    requires '%' !in rep
    ensures !Contains(ReplaceAll(s, Marker, rep), Marker)
    decreases |s|
  {
    var r := ReplaceAll(s, Marker, rep);
    if |s| < |Marker| {
      ShortHasNoMarker(s);
    } else if s[..|Marker|] == Marker {
      ReplaceAllLeavesNoMarker(s[|Marker|..], rep);
      NoMarkerAfterPrefix(rep, ReplaceAll(s[|Marker|..], Marker, rep));
    } else if s[0] != '%' {
      ReplaceAllLeavesNoMarker(s[1..], rep);
      NoMarkerAfterPrefix([s[0]], ReplaceAll(s[1..], Marker, rep));
    } else {
      var t := ReplaceAll(s[1..], Marker, rep);
      ReplaceAllLeavesNoMarker(s[1..], rep);
      ReplaceKeepsRunShort(s[1..], rep);
      assert r == "%" + t;
      assert s[1] != '%' || s[2] != '%';
      assert s[1..][0] == s[1];
      assert s[1] == '%' ==> s[1..][1..][0] == s[2];
      assert LeadingRun(s[1..], '%') < 2;
      assert r[1..] == t;
    }
  }

  /** A window that covers the separator `c` cannot match a pattern without `c`. */
  lemma WindowOverSeparator(s: string, k: nat, c: char, pat: string)
    requires c !in pat && k < |pat| <= |s| && s[k] == c
    ensures s[..|pat|] != pat
  {
    assert s[..|pat|][k] == c;
  }

  /** A separator character absent from the pattern splits the scan in two: a match
      can never straddle it. */
  lemma {:induction false} ReplaceAllAround(x: string, c: char, y: string, pat: string, rep: string)
    requires pat != [] && c !in pat
    ensures ReplaceAll(x + [c] + y, pat, rep) == ReplaceAll(x, pat, rep) + [c] + ReplaceAll(y, pat, rep)
    decreases |x|
  {
    var s := x + [c] + y;
    if x == [] {
      ReplaceAllAtSeparator(c, y, pat, rep);
      assert s == [c] + y;
    } else if |x| < |pat| {
      ReplaceAllAround(x[1..], c, y, pat, rep);
      ReplaceAllShortHead(x, c, y, pat, rep);
    } else {
      ReplaceAllLongHead(x, c, y, pat, rep);
    }
  }

  lemma ReplaceAllAtSeparator(c: char, y: string, pat: string, rep: string)
    requires pat != [] && c !in pat
    ensures ReplaceAll([c] + y, pat, rep) == [c] + ReplaceAll(y, pat, rep)
  {
    var s := [c] + y;
    assert s[1..] == y;
    if |s| >= |pat| {
      WindowOverSeparator(s, 0, c, pat);
    }
  }

  lemma ReplaceAllShortHead(x: string, c: char, y: string, pat: string, rep: string)
    requires pat != [] && c !in pat && 0 < |x| < |pat|
    requires ReplaceAll(x[1..] + [c] + y, pat, rep) == ReplaceAll(x[1..], pat, rep) + [c] + ReplaceAll(y, pat, rep)
    ensures ReplaceAll(x + [c] + y, pat, rep) == ReplaceAll(x, pat, rep) + [c] + ReplaceAll(y, pat, rep)
  {
    var s := x + [c] + y;
    assert s[1..] == x[1..] + [c] + y;
    assert s[|x|] == c;
    if |s| >= |pat| {
      WindowOverSeparator(s, |x|, c, pat);
      assert ReplaceAll(s, pat, rep) == [s[0]] + ReplaceAll(s[1..], pat, rep);
    } else {
      assert |y| < |pat|;
    }
    assert ReplaceAll(x[1..], pat, rep) == x[1..];
    assert ReplaceAll(x, pat, rep) == x;
    assert x == [x[0]] + x[1..];
  }

  lemma {:induction false} ReplaceAllLongHead(x: string, c: char, y: string, pat: string, rep: string)
    requires pat != [] && c !in pat && |pat| <= |x|
    ensures ReplaceAll(x + [c] + y, pat, rep) == ReplaceAll(x, pat, rep) + [c] + ReplaceAll(y, pat, rep)
    decreases |x|, 0
  {
    var s := x + [c] + y;
    assert s[..|pat|] == x[..|pat|];
    if x[..|pat|] == pat {
      assert s[|pat|..] == x[|pat|..] + [c] + y;
      ReplaceAllAround(x[|pat|..], c, y, pat, rep);
      assert ReplaceAll(s, pat, rep) == rep + ReplaceAll(s[|pat|..], pat, rep);
    } else {
      assert s[1..] == x[1..] + [c] + y;
      ReplaceAllAround(x[1..], c, y, pat, rep);
      assert ReplaceAll(s, pat, rep) == [s[0]] + ReplaceAll(s[1..], pat, rep);
    }
  }

  /** Likewise an occurrence in `x + [c] + y` lies wholly in `x` or wholly in `y`. */
  lemma {:induction false} ContainsAround(x: string, c: char, y: string, pat: string)
    requires pat != [] && c !in pat
    ensures Contains(x + [c] + y, pat) <==> Contains(x, pat) || Contains(y, pat)
    decreases |x|
  {
    var s := x + [c] + y;
    if x == [] {
      assert s == [c] + y;
      assert s[1..] == y;
      if |s| >= |pat| {
        WindowOverSeparator(s, 0, c, pat);
      }
    } else {
      assert s[1..] == x[1..] + [c] + y;
      ContainsAround(x[1..], c, y, pat);
      if |pat| <= |x| {
        assert s[..|pat|] == x[..|pat|];
      } else if |pat| <= |s| {
        WindowOverSeparator(s, |x|, c, pat);
      }
    }
  }
}

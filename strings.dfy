/**
 * String operations the clinic code relies on, written out with the semantics of the
 * language that performs them: Python `str.replace`, JavaScript `trim`, `split(' ')`,
 * `includes`, `toLowerCase`/`toUpperCase` (ASCII letters only), and the byte-wise
 * ordering SQLite uses for `ORDER BY` on TEXT.
 */
module Strings {

  predicate IsPrefix(p: string, s: string) {
    |p| <= |s| && s[..|p|] == p
  }

  /** `p` occurs somewhere in `s`: JavaScript `s.includes(p)`. */
  predicate IsInfix(p: string, s: string)
    decreases |s|
  {
    IsPrefix(p, s) || (|s| > 0 && IsInfix(p, s[1..]))
  }

  lemma {:induction false} EmptyIsInfix(s: string)
    ensures IsInfix("", s)
  {
  }

  // ---------------------------------------------------------------------------
  // Python str.replace
  // ---------------------------------------------------------------------------

  /** Python `s.replace(pat, rep)`: every non-overlapping occurrence, scanning left to right. */
  function Replace(s: string, pat: string, rep: string): string
    requires |pat| > 0
    decreases |s|
  {
    if |s| == 0 then []
    else if IsPrefix(pat, s) then rep + Replace(s[|pat|..], pat, rep)
    else [s[0]] + Replace(s[1..], pat, rep)
  }

  /** Reference definition of a one-character replacement: each character expands on its own. */
  function ExpandChar(s: string, c: char, rep: string): string
    decreases |s|
  {
    if |s| == 0 then [] else (if s[0] == c then rep else [s[0]]) + ExpandChar(s[1..], c, rep)
  }

  /** Replacing a one-character pattern is exactly the character-by-character expansion. */
  lemma {:induction false} ReplaceCharIsExpand(s: string, c: char, rep: string)
    ensures Replace(s, [c], rep) == ExpandChar(s, c, rep)
    decreases |s|
  {
    if |s| > 0 {
      assert IsPrefix([c], s) <==> s[0] == c by {
        assert s[..1] == [s[0]];
      }
      ReplaceCharIsExpand(s[1..], c, rep);
    }
  }

  /** A one-character pattern occurs exactly when the character does. */
  lemma {:induction false} CharInfix(c: char, s: string)
    ensures IsInfix([c], s) <==> c in s
    decreases |s|
  {
    if |s| > 0 {
      assert s[..1] == [s[0]];
      assert s == [s[0]] + s[1..];
      CharInfix(c, s[1..]);
    }
  }

  /** A text without the pattern comes out of the replacement unchanged. */
  lemma {:induction false} ReplaceAbsentIdentity(s: string, pat: string, rep: string)
    requires |pat| > 0 && !IsInfix(pat, s)
    ensures Replace(s, pat, rep) == s
    decreases |s|
  {
    if |s| > 0 {
      ReplaceAbsentIdentity(s[1..], pat, rep);
      assert s == [s[0]] + s[1..];
    }
  }

  lemma ExpandHead(t: string, c: char, rep: string)
    requires |rep| > 0 && |t| > 0
    ensures ExpandChar(t, c, rep)[0] == if t[0] == c then rep[0] else t[0]
  {
  }

  /** A prefix of an expansion that holds neither `c` nor the expansion's first character was a prefix before. */
  lemma {:induction false} ExpandPrefixBack(t: string, c: char, rep: string, q: string)
    requires |rep| > 0 && rep[0] !in q && c !in q
    requires IsPrefix(q, ExpandChar(t, c, rep))
    ensures IsPrefix(q, t)
    decreases |t|
  {
    if |q| > 0 {
      var out := ExpandChar(t, c, rep);
      ExpandHead(t, c, rep);
      assert q[0] == out[0];
      assert t[0] != c;
      var r := ExpandChar(t[1..], c, rep);
      assert out == [t[0]] + r;
      assert r[..|q| - 1] == q[1..];
      assert rep[0] !in q[1..] && c !in q[1..] by {
        assert forall x | x in q[1..] :: x in q;
      }
      ExpandPrefixBack(t[1..], c, rep, q[1..]);
      assert t[..|q|] == [t[0]] + t[1..][..|q| - 1];
    }
  }

  lemma ConsPrefixBack(x: char, t: string, c: char, rep: string, pat: string)
    requires |pat| > 0 && |rep| > 0 && rep[0] !in pat && c !in pat
    ensures IsPrefix(pat, [x] + ExpandChar(t, c, rep)) ==> IsPrefix(pat, [x] + t)
  {
    if IsPrefix(pat, [x] + ExpandChar(t, c, rep)) {
      assert ([x] + ExpandChar(t, c, rep))[1..] == ExpandChar(t, c, rep);
      assert ExpandChar(t, c, rep)[..|pat| - 1] == pat[1..];
      assert rep[0] !in pat[1..] && c !in pat[1..] by {
        assert forall y | y in pat[1..] :: y in pat;
      }
      ExpandPrefixBack(t, c, rep, pat[1..]);
      assert ([x] + t)[..|pat|] == [x] + t[..|pat| - 1];
    }
  }

  /**
   * Expanding a character the pattern does not contain, into text that cannot start or
   * end an occurrence of the pattern, creates no occurrence that was not there before.
   */
  lemma {:induction false} ExpandKeepsNoInfix(s: string, c: char, rep: string, pat: string)
    requires |pat| > 0 && |rep| > 0 && c !in pat && pat[0] !in rep && rep[0] !in pat
    requires !IsInfix(pat, s)
    ensures !IsInfix(pat, ExpandChar(s, c, rep))
    decreases |s|
  {
    if |s| > 0 {
      var rest := s[1..];
      ExpandKeepsNoInfix(rest, c, rep, pat);
      if s[0] == c {
        DistinctHeadNoOverlap(rep, pat);
        NoInfixThroughPrefix(pat, rep, ExpandChar(rest, c, rep));
      } else {
        var e := [s[0]] + ExpandChar(rest, c, rep);
        assert ExpandChar(s, c, rep) == e;
        assert s == [s[0]] + rest;
        ConsPrefixBack(s[0], rest, c, rep, pat);
        assert e[1..] == ExpandChar(rest, c, rep);
      }
    }
  }

  /** A character that neither the input nor the replacement holds cannot appear in the output. */
  lemma {:induction false} ReplaceKeepsAbsent(s: string, pat: string, rep: string, c: char)
    requires |pat| > 0 && c !in s && c !in rep
    ensures c !in Replace(s, pat, rep)
    decreases |s|
  {
    if |s| > 0 {
      if IsPrefix(pat, s) {
        assert forall x | x in s[|pat|..] :: x in s;
        ReplaceKeepsAbsent(s[|pat|..], pat, rep, c);
      } else {
        assert forall x | x in s[1..] :: x in s;
        ReplaceKeepsAbsent(s[1..], pat, rep, c);
      }
    }
  }

  /** Replacing a single character by text that does not contain it removes every occurrence. */
  lemma {:induction false} ReplaceRemovesChar(s: string, c: char, rep: string)
    requires c !in rep
    ensures c !in Replace(s, [c], rep)
    decreases |s|
  {
    if |s| > 0 {
      assert s[..1] == [s[0]];
      ReplaceRemovesChar(s[1..], c, rep);
    }
  }

  /** No piece of `a` from some position to its end can begin an occurrence of `p`. */
  predicate NoOverlapTail(a: string, p: string) {
    forall k | 0 <= k < |a| :: !IsPrefix(a[k..], p) && !IsPrefix(p, a[k..])
  }

  lemma DistinctHeadNoOverlap(a: string, p: string)
    requires |p| > 0 && p[0] !in a
    ensures NoOverlapTail(a, p)
  {
    forall k | 0 <= k < |a|
      ensures !IsPrefix(a[k..], p) && !IsPrefix(p, a[k..])
    {
      assert a[k..][0] == a[k];
    }
  }

  lemma {:induction false} NoInfixThroughPrefix(p: string, a: string, b: string)
    requires |p| > 0 && NoOverlapTail(a, p) && !IsInfix(p, b)
    ensures !IsInfix(p, a + b)
    decreases |a|
  {
    if |a| > 0 {
      assert !IsPrefix(p, a + b) by {
        assert a[0..] == a;
        if |p| <= |a| {
          assert (a + b)[..|p|] == a[..|p|];
        } else {
          assert (a + b)[..|a|] == a;
        }
      }
      assert NoOverlapTail(a[1..], p) by {
        forall k | 0 <= k < |a| - 1
          ensures !IsPrefix(a[1..][k..], p) && !IsPrefix(p, a[1..][k..])
        {
          assert a[1..][k..] == a[k + 1..];
        }
      }
      NoInfixThroughPrefix(p, a[1..], b);
      assert (a + b)[1..] == a[1..] + b;
    } else {
      assert a + b == b;
    }
  }

  lemma ReplaceHead(t: string, pat: string, rep: string)
    requires |pat| > 0 && |rep| > 0 && |t| > 0
    ensures Replace(t, pat, rep)[0] == if IsPrefix(pat, t) then rep[0] else t[0]
  {
  }

  /** A prefix of the output that avoids the replacement's first character was already a prefix of the input. */
  lemma {:induction false} ReplacePrefixBack(t: string, pat: string, rep: string, q: string)
    requires |pat| > 0 && |rep| > 0 && rep[0] !in q
    requires IsPrefix(q, Replace(t, pat, rep))
    ensures IsPrefix(q, t)
    decreases |t|
  {
    if |q| > 0 && |t| > 0 {
      var out := Replace(t, pat, rep);
      ReplaceHead(t, pat, rep);
      assert q[0] == out[0];
      assert !IsPrefix(pat, t);
      var r := Replace(t[1..], pat, rep);
      assert out == [t[0]] + r;
      assert r[..|q| - 1] == q[1..];
      assert rep[0] !in q[1..] by {
        assert forall x | x in q[1..] :: x in q;
      }
      ReplacePrefixBack(t[1..], pat, rep, q[1..]);
      assert t[..|q|] == [t[0]] + t[1..][..|q| - 1];
    }
  }

  /**
   * No occurrence of the pattern survives a replacement, provided no tail of the
   * replacement can begin an occurrence and the replacement's first character is not in
   * the pattern (so no new occurrence can straddle a replaced piece).
   */
  lemma {:induction false} ReplaceRemovesAll(s: string, pat: string, rep: string)
    requires |pat| > 0 && |rep| > 0 && NoOverlapTail(rep, pat) && rep[0] !in pat
    ensures !IsInfix(pat, Replace(s, pat, rep))
    decreases |s|
  {
    if |s| == 0 {
    } else if IsPrefix(pat, s) {
      ReplaceRemovesAll(s[|pat|..], pat, rep);
      NoInfixThroughPrefix(pat, rep, Replace(s[|pat|..], pat, rep));
    } else {
      var t := s[1..];
      var rt := Replace(t, pat, rep);
      ReplaceRemovesAll(t, pat, rep);
      var r := [s[0]] + rt;
      assert Replace(s, pat, rep) == r;
      assert r[1..] == rt;
      if IsPrefix(pat, r) {
        assert pat[0] == s[0];
        assert rt[..|pat| - 1] == pat[1..];
        assert rep[0] !in pat[1..] by {
          assert forall x | x in pat[1..] :: x in pat;
        }
        ReplacePrefixBack(t, pat, rep, pat[1..]);
        assert false;
      }
    }
  }

  /** An occurrence in a suffix is an occurrence in the whole text. */
  lemma {:induction false} InfixOfSuffix(p: string, s: string, k: nat)
    requires k <= |s| && IsInfix(p, s[k..])
    ensures IsInfix(p, s)
    decreases k
  {
    if k > 0 {
      assert s[1..][k - 1..] == s[k..];
      InfixOfSuffix(p, s[1..], k - 1);
    }
  }

  /** The pattern on its own is replaced by the replacement. */
  lemma ReplaceWhole(pat: string, rep: string)
    requires |pat| > 0
    ensures Replace(pat, pat, rep) == rep
  {
    assert IsPrefix(pat, pat);
    assert pat[|pat|..] == [];
  }

  /**
   * Replacing back undoes a replacement, provided the text held no copy of the replacement
   * and the replacement's first character does not recur in it (so no copy can straddle a
   * replaced piece and its neighbour).
   */
  lemma {:induction false} ReplaceUndo(s: string, pat: string, rep: string)
    requires |pat| > 0 && |rep| > 0 && rep[0] !in rep[1..] && !IsInfix(rep, s)
    ensures Replace(Replace(s, pat, rep), rep, pat) == s
    decreases |s|
  {
    if |s| > 0 {
      if IsPrefix(pat, s) {
        var t := s[|pat|..];
        var x := Replace(t, pat, rep);
        if IsInfix(rep, t) {
          InfixOfSuffix(rep, s, |pat|);
        }
        ReplaceUndo(t, pat, rep);
        assert (rep + x)[..|rep|] == rep;
        assert (rep + x)[|rep|..] == x;
        assert Replace(rep + x, rep, pat) == pat + Replace(x, rep, pat);
        assert s == pat + t;
      } else {
        var t := s[1..];
        var x := Replace(t, pat, rep);
        ReplaceUndo(t, pat, rep);
        var y := [s[0]] + x;
        assert Replace(s, pat, rep) == y;
        assert y[1..] == x;
        if IsPrefix(rep, y) {
          assert x[..|rep| - 1] == rep[1..];
          ReplacePrefixBack(t, pat, rep, rep[1..]);
          assert false;
        }
        assert s == [s[0]] + t;
      }
    }
  }

  /**
   * Turning SQLite placeholders into Postgres ones is undone by the reverse replacement,
   * as long as the query did not already contain a Postgres placeholder.
   */
  lemma {:induction false} PlaceholderRoundTrip(s: string)
    requires !IsInfix("%s", s)
    ensures Replace(Replace(s, "?", "%s"), "%s", "?") == s
    decreases |s|
  {
    if |s| > 0 {
      var t := s[1..];
      assert !IsInfix("%s", t);
      PlaceholderRoundTrip(t);
      var x := Replace(t, "?", "%s");
      assert s[..1] == [s[0]];
      if s[0] == '?' {
        assert Replace(s, "?", "%s") == "%s" + x;
        assert ("%s" + x)[..2] == "%s";
        assert ("%s" + x)[2..] == x;
      } else {
        assert Replace(s, "?", "%s") == [s[0]] + x;
        assert ([s[0]] + x)[1..] == x;
        if IsPrefix("%s", [s[0]] + x) {
          assert false;
        }
      }
    }
  }

  // ---------------------------------------------------------------------------
  // JavaScript case mapping (ASCII letters only)
  // ---------------------------------------------------------------------------

  function LowerChar(c: char): char {
    if 'A' <= c <= 'Z' then (c as int + 32) as char else c
  }

  function UpperChar(c: char): char {
    if 'a' <= c <= 'z' then (c as int - 32) as char else c
  }

  /** `s.toLowerCase()` on ASCII letters. */
  function ToLower(s: string): (r: string)
    ensures |r| == |s|
    ensures forall i | 0 <= i < |s| :: r[i] == LowerChar(s[i])
  {
    seq(|s|, i requires 0 <= i < |s| => LowerChar(s[i]))
  }

  /** `s.toUpperCase()` on ASCII letters. */
  function ToUpper(s: string): (r: string)
    ensures |r| == |s|
    ensures forall i | 0 <= i < |s| :: r[i] == UpperChar(s[i])
  {
    seq(|s|, i requires 0 <= i < |s| => UpperChar(s[i]))
  }

  lemma {:induction false} ToLowerIdempotent(s: string)
    ensures ToLower(ToLower(s)) == ToLower(s)
  {
    assert forall i | 0 <= i < |s| :: LowerChar(LowerChar(s[i])) == LowerChar(s[i]);
  }

  // ---------------------------------------------------------------------------
  // JavaScript String.prototype.trim
  // ---------------------------------------------------------------------------

  /** ECMAScript WhiteSpace and LineTerminator code points, the set `trim` removes. */
  predicate IsJsSpace(c: char) {
    c in JsSpaces
  }

  const JsSpaces: set<char> := {'\t', '\n', '\r', '\U{000B}', '\U{000C}', ' ', '\U{00A0}', '\U{1680}',
    '\U{2000}', '\U{2001}', '\U{2002}', '\U{2003}', '\U{2004}', '\U{2005}', '\U{2006}', '\U{2007}',
    '\U{2008}', '\U{2009}', '\U{200A}', '\U{2028}', '\U{2029}', '\U{202F}', '\U{205F}', '\U{3000}', '\U{FEFF}'}

  function TrimStart(s: string): (r: string)
    ensures |r| <= |s| && r == s[|s| - |r|..]
    ensures forall i | 0 <= i < |s| - |r| :: IsJsSpace(s[i])
    ensures |r| > 0 ==> !IsJsSpace(r[0])
    decreases |s|
  {
    if |s| > 0 && IsJsSpace(s[0]) then TrimStart(s[1..]) else s
  }

  function TrimEnd(s: string): (r: string)
    ensures |r| <= |s| && r == s[..|r|]
    ensures forall i | |r| <= i < |s| :: IsJsSpace(s[i])
    ensures |r| > 0 ==> !IsJsSpace(r[|r| - 1])
    decreases |s|
  {
    if |s| > 0 && IsJsSpace(s[|s| - 1]) then TrimEnd(s[..|s| - 1]) else s
  }

  /** `r` is `s` from index `k` on, with only white space before `k` and after `r`. */
  predicate TrimmedAt(s: string, r: string, k: int) {
    0 <= k <= |s| - |r| && r == s[k..k + |r|]
    && (forall i | 0 <= i < k :: IsJsSpace(s[i]))
    && (forall i | k + |r| <= i < |s| :: IsJsSpace(s[i]))
  }

  /**
   * `s.trim()`: the input with its leading and trailing white space removed. That only
   * white space is removed is `TrimRemovesOnlyEdgeSpace`.
   */
  function Trim(s: string): (r: string)
    ensures exists k {:trigger s[k..]} :: 0 <= k <= |s| - |r| && r == s[k..k + |r|]
    ensures |r| > 0 ==> !IsJsSpace(r[0]) && !IsJsSpace(r[|r| - 1])
  {
    var a := TrimStart(s);
    var b := TrimEnd(a);
    assert b == s[|s| - |a|..][..|b|];
    b
  }

  /**
   * `trim` removes white space at both ends and nothing else: the result is the text from
   * some index on, with only white space before it and after it. With the result's own
   * ends not white space, this leaves exactly one possible result.
   */
  lemma TrimRemovesOnlyEdgeSpace(s: string)
    ensures exists k {:trigger TrimmedAt(s, Trim(s), k)} :: TrimmedAt(s, Trim(s), k)
  {
    var a := TrimStart(s);
    var b := TrimEnd(a);
    assert Trim(s) == b;
    TrimWitness(s, a, b);
  }

  /** Leading white space dropped to give `a`, then trailing white space to give `b`. */
  lemma TrimWitness(s: string, a: string, b: string)
    requires |a| <= |s| && a == s[|s| - |a|..] && forall i | 0 <= i < |s| - |a| :: IsJsSpace(s[i])
    requires |b| <= |a| && b == a[..|b|] && forall i | |b| <= i < |a| :: IsJsSpace(a[i])
    ensures TrimmedAt(s, b, |s| - |a|)
  {
    var k := |s| - |a|;
    assert b == s[k..k + |b|];
    forall i | k + |b| <= i < |s|
      ensures IsJsSpace(s[i])
    {
      assert s[i] == a[i - k];
    }
  }

  // ---------------------------------------------------------------------------
  // JavaScript split(' ')
  // ---------------------------------------------------------------------------

  /** `s.split(' ')[0]`: the text before the first space, or all of `s`. */
  function FirstSegment(s: string): (r: string)
    ensures |r| <= |s| && forall i | 0 <= i < |r| :: r[i] == s[i] && s[i] != ' '
    ensures |r| < |s| ==> s[|r|] == ' '
    decreases |s|
  {
    if |s| == 0 || s[0] == ' ' then [] else [s[0]] + FirstSegment(s[1..])
  }

  /** No piece contains a space. */
  predicate NoSpaces(ws: seq<string>) {
    forall i | 0 <= i < |ws| :: ' ' !in ws[i]
  }

  /** `last` is the tail of `s` after its last space, or all of `s` when it has none. */
  predicate IsLastPiece(last: string, s: string) {
    |last| <= |s| && s[|s| - |last|..] == last && (|last| < |s| ==> s[|s| - |last| - 1] == ' ')
  }

  /** `s.split(' ')`: the pieces between single spaces, empty pieces included. */
  function Split(s: string): (r: seq<string>)
    ensures |r| >= 1 && r[0] == FirstSegment(s)
    decreases |s|
  {
    var first := FirstSegment(s);
    if |first| == |s| then [s] else [first] + Split(s[|first| + 1..])
  }

  /** The pieces joined back together with single spaces (`ws.join(' ')`). */
  function JoinSpace(ws: seq<string>): string
    decreases |ws|
  {
    if |ws| == 0 then "" else if |ws| == 1 then ws[0] else ws[0] + " " + JoinSpace(ws[1..])
  }

  /** Joining the pieces with single spaces gives the text back. */
  lemma {:induction false} SplitJoin(s: string)
    ensures JoinSpace(Split(s)) == s
    decreases |s|
  {
    var first := FirstSegment(s);
    if |first| == |s| {
      SplitWhole(s);
    } else {
      var rest := s[|first| + 1..];
      SplitJoin(rest);
      SplitUnfold(s, first);
      FirstSegmentThenSpace(s);
      JoinCons(first, Split(rest));
    }
  }

  /** A text whose first piece ends before its end is that piece, a space and the rest. */
  lemma FirstSegmentThenSpace(s: string)
    requires |FirstSegment(s)| < |s|
    ensures s == FirstSegment(s) + " " + s[|FirstSegment(s)| + 1..]
  {
    var first := FirstSegment(s);
    assert s[..|first|] == first;
    assert s == s[..|first|] + [s[|first|]] + s[|first| + 1..];
  }

  lemma JoinCons(w: string, ws: seq<string>)
    requires |ws| >= 1
    ensures JoinSpace([w] + ws) == w + " " + JoinSpace(ws)
  {
    assert ([w] + ws)[1..] == ws;
  }

  /** Space-free words joined with single spaces split back into those words. */
  lemma {:induction false} SplitOfJoin(ws: seq<string>)
    requires |ws| >= 1 && NoSpaces(ws)
    ensures Split(JoinSpace(ws)) == ws
    decreases |ws|
  {
    if |ws| == 1 {
      SplitOneWord(ws[0]);
    } else {
      var tail := ws[1..];
      assert NoSpaces(tail) by {
        forall i | 0 <= i < |tail| ensures ' ' !in tail[i] {
          assert tail[i] == ws[i + 1];
        }
      }
      SplitOfJoin(tail);
      var rest := JoinSpace(tail);
      var s := ws[0] + " " + rest;
      assert s == ws[0] + (" " + rest);
      FirstSegmentOfWord(ws[0], " " + rest);
      assert s[|ws[0]| + 1..] == rest;
      SplitUnfold(s, ws[0]);
      assert ws == [ws[0]] + tail;
    }
  }

  /** There is more than one piece exactly when the text has a space. */
  lemma {:induction false} SplitHasSpace(s: string)
    ensures |Split(s)| > 1 <==> ' ' in s
  {
    var first := FirstSegment(s);
    if |first| == |s| {
      assert first == s;
    } else {
      assert s[|first|] == ' ';
    }
  }

  /** No piece contains a space. */
  lemma {:induction false} SplitNoSpaces(s: string)
    ensures NoSpaces(Split(s))
    decreases |s|
  {
    var first := FirstSegment(s);
    if |first| < |s| {
      var tail := Split(s[|first| + 1..]);
      SplitNoSpaces(s[|first| + 1..]);
      var r := Split(s);
      assert r == [first] + tail;
      forall i | 0 <= i < |r|
        ensures ' ' !in r[i]
      {
        if i > 0 {
          assert r[i] == tail[i - 1];
        }
      }
    }
  }

  /** The last piece is what follows the last space, or the whole text when there is none. */
  lemma {:induction false} SplitLastPiece(s: string)
    ensures IsLastPiece(Split(s)[|Split(s)| - 1], s)
    decreases |s|
  {
    var first := FirstSegment(s);
    if |first| < |s| {
      var rest := s[|first| + 1..];
      SplitLastPiece(rest);
      SplitUnfold(s, first);
      LastOfCons(first, Split(rest));
      LastPieceAfterSpace(s, |first|, Split(rest)[|Split(rest)| - 1]);
    } else {
      SplitWhole(s);
    }
  }

  /** Prepending an element keeps the last element. */
  lemma LastOfCons(w: string, ws: seq<string>)
    requires |ws| >= 1
    ensures ([w] + ws)[|ws|] == ws[|ws| - 1]
  {
  }

  /** A text without a space is its own single piece. */
  lemma SplitWhole(s: string)
    requires |FirstSegment(s)| == |s|
    ensures Split(s) == [s] && IsLastPiece(s, s)
  {
    assert FirstSegment(s) == s;
    assert s[0..] == s;
  }

  /** When the first piece ends at a space, the pieces are it and the pieces after that space. */
  lemma SplitUnfold(s: string, first: string)
    requires FirstSegment(s) == first && |first| < |s|
    ensures Split(s) == [first] + Split(s[|first| + 1..])
  {
  }

  /** A last piece of the text after a space is a last piece of the whole text. */
  lemma LastPieceAfterSpace(s: string, k: nat, last: string)
    requires k < |s| && s[k] == ' ' && IsLastPiece(last, s[k + 1..])
    ensures IsLastPiece(last, s)
  {
    var rest := s[k + 1..];
    var d := |s| - |last|;
    assert |rest| == |s| - k - 1;
    assert d >= k + 1;
    assert s[d..] == rest[d - k - 1..];
    if |last| < |rest| {
      assert s[d - 1] == rest[d - k - 2];
    }
  }

  lemma {:induction false} FirstSegmentOfWord(a: string, rest: string)
    requires ' ' !in a && (|rest| == 0 || rest[0] == ' ')
    ensures FirstSegment(a + rest) == a
    decreases |a|
  {
    if |a| > 0 {
      assert (a + rest)[1..] == a[1..] + rest;
      FirstSegmentOfWord(a[1..], rest);
    } else {
      assert a + rest == rest;
    }
  }

  /** Two words joined by one space split back into those two words. */
  lemma SplitTwoWords(a: string, b: string)
    requires ' ' !in a && ' ' !in b
    ensures Split(a + " " + b) == [a, b]
  {
    var s := a + " " + b;
    var sb := " " + b;
    assert s == a + sb;
    FirstSegmentOfWord(a, sb);
    assert s[|a| + 1..] == b;
    SplitOneWord(b);
    SplitIntoTwo(s, a, b);
  }

  /** The pieces of a text whose first piece is `a` and whose text after that space is one piece `b`. */
  lemma SplitIntoTwo(s: string, a: string, b: string)
    requires FirstSegment(s) == a && |a| < |s| && s[|a| + 1..] == b && Split(b) == [b]
    ensures Split(s) == [a, b]
  {
    assert Split(s) == [a] + Split(b);
  }

  /** A text without spaces is a single piece. */
  lemma SplitOneWord(b: string)
    requires ' ' !in b
    ensures Split(b) == [b]
  {
    FirstSegmentOfWord(b, []);
    assert b + [] == b;
  }

  // ---------------------------------------------------------------------------
  // SQLite BINARY collation
  // ---------------------------------------------------------------------------

  /**
   * `a <= b` in code-point order, which on UTF-8 text is the byte order SQLite's BINARY
   * collation uses for `ORDER BY`.
   */
  predicate LexLeq(a: string, b: string)
    decreases |a|
  {
    |a| == 0 || (|b| > 0 && (a[0] < b[0] || (a[0] == b[0] && LexLeq(a[1..], b[1..]))))
  }

  lemma {:induction false} LexLeqTotal(a: string, b: string)
    ensures LexLeq(a, b) || LexLeq(b, a)
    decreases |a|
  {
    if |a| > 0 && |b| > 0 && a[0] == b[0] {
      LexLeqTotal(a[1..], b[1..]);
    }
  }

  lemma {:induction false} LexLeqTransitive(a: string, b: string, c: string)
    requires LexLeq(a, b) && LexLeq(b, c)
    ensures LexLeq(a, c)
    decreases |a|
  {
    if |a| > 0 && a[0] == b[0] && b[0] == c[0] {
      LexLeqTransitive(a[1..], b[1..], c[1..]);
    }
  }
}

/**
 * Text primitives with the meaning Python's `str` methods give them:
 * `isspace`, `strip()`, `lower()`, `startswith`/`endswith`, `in` and `replace`.
 */
module Text {

  /** The characters Python's `str.isspace()` accepts. */
  predicate IsSpace(c: char)
  {
    c == ' ' || ('\t' <= c <= '\r') || ('\U{1C}' <= c <= '\U{1F}') || c == '\U{85}' || c == '\U{A0}'
    || c == '\U{1680}' || ('\U{2000}' <= c <= '\U{200A}') || c == '\U{2028}' || c == '\U{2029}'
    || c == '\U{202F}' || c == '\U{205F}' || c == '\U{3000}'
  }

  predicate AllSpace(s: string)
  {
    forall i :: 0 <= i < |s| ==> IsSpace(s[i])
  }

  /** No whitespace at either end. */
  predicate IsTrimmed(s: string)
  {
    s == [] || (!IsSpace(s[0]) && !IsSpace(s[|s| - 1]))
  }

  /** `s.lstrip()`: the longest suffix of `s` that does not start with whitespace. */
  function TrimStart(s: string): (r: string)
    ensures |r| <= |s| && r == s[|s| - |r|..]
    ensures AllSpace(s[..|s| - |r|])
    ensures r == [] || !IsSpace(r[0])
  {
    if s != [] && IsSpace(s[0]) then
      var r := TrimStart(s[1..]);
      assert s[1..][..|s| - 1 - |r|] == s[1..|s| - |r|];
      r
    else s
  }

  /** `s.rstrip()`: the longest prefix of `s` that does not end with whitespace. */
  function TrimEnd(s: string): (r: string)
    ensures |r| <= |s| && r == s[..|r|]
    ensures AllSpace(s[|r|..])
    ensures r == [] || !IsSpace(r[|r| - 1])
  {
    if s != [] && IsSpace(s[|s| - 1]) then
      var r := TrimEnd(s[..|s| - 1]);
      assert s[..|s| - 1][|r|..] == s[|r|..|s| - 1];
      r
    else s
  }

  /** Stripping the front of a text that is all blanks leaves nothing, and only then. */
  lemma TrimStartEmpty(s: string)
    ensures TrimStart(s) == [] <==> AllSpace(s)
  {
    var t := TrimStart(s);
    if t == [] {
      assert s[..|s| - |t|] == s;
    }
  }

  /** Stripping the end of a text that is all blanks leaves nothing, and only then. */
  lemma TrimEndEmpty(t: string)
    ensures TrimEnd(t) == [] <==> AllSpace(t)
  {
    var r := TrimEnd(t);
    if r == [] {
      assert t[|r|..] == t;
    }
  }

  /** `s.strip()`: `s` without its leading and trailing whitespace. */
  function Trim(s: string): (r: string)
    ensures IsTrimmed(r)
    ensures |r| <= |s|
    ensures r == [] <==> AllSpace(s)
    ensures IsTrimmed(s) ==> r == s
    ensures forall c :: c in r ==> c in s
  {
    var t := TrimStart(s);
    TrimStartEmpty(s);
    TrimEndEmpty(t);
    var r := TrimEnd(t);
    assert r != [] ==> r[0] == t[0];
    r
  }

  /** One blank on each side of a trimmed, non-empty text is all `strip()` removes. */
  lemma TrimPadded(s: string)
    requires s != [] && IsTrimmed(s)
    ensures Trim([' '] + s + [' ']) == s
  {
    var u, v := [' '] + s + [' '], s + [' '];
    assert u[0] == ' ' && u[1..] == v && v[0] == s[0];
    assert TrimStart(v) == v;
    assert v[|v| - 1] == ' ' && v[..|v| - 1] == s;
    assert TrimEnd(s) == s;
  }

  /** Python's `lower()` on the characters a Spanish-language export uses: ASCII and Latin-1. */
  function LowerChar(c: char): char
  {
    if 'A' <= c <= 'Z' || ('\U{C0}' <= c <= '\U{DE}' && c != '\U{D7}') then (c as int + 32) as char else c
  }

  predicate IsLower(s: string)
  {
    forall i :: 0 <= i < |s| ==> LowerChar(s[i]) == s[i]
  }

  /** `s.lower()`: the same characters, each lowered; the result is lower case. */
  function Lower(s: string): (r: string)
    ensures |r| == |s| && IsLower(r)
    ensures forall i :: 0 <= i < |s| ==> r[i] == LowerChar(s[i])
  {
    seq(|s|, i requires 0 <= i < |s| => LowerChar(s[i]))
  }

  predicate StartsWith(s: string, p: string)
  {
    |p| <= |s| && s[..|p|] == p
  }

  predicate EndsWith(s: string, p: string)
  {
    |p| <= |s| && s[|s| - |p|..] == p
  }

  /** `p in s`: `p` occurs somewhere in `s`. */
  predicate Contains(s: string, p: string)
    decreases |s|
  {
    StartsWith(s, p) || (s != [] && Contains(s[1..], p))
  }

  /**
   * `s.replace(pat, rep)`: scanning left to right, every non-overlapping occurrence of `pat`
   * is replaced by `rep`; an empty `pat` inserts `rep` around every character.
   */
  function Replace(s: string, pat: string, rep: string): string
    decreases |s|
  {
    if pat == [] then rep + (if s == [] then [] else [s[0]] + Replace(s[1..], pat, rep))
    else if |s| < |pat| then s
    else if s[..|pat|] == pat then rep + Replace(s[|pat|..], pat, rep)
    else [s[0]] + Replace(s[1..], pat, rep)
  }

  // ---------------------------------------------------------------------------
  // Facts about Replace

  lemma {:induction false} ReplaceKeeps(s: string, pat: string, rep: string, c: char)
    requires c in Replace(s, pat, rep)
    ensures c in s || c in rep
    decreases |s|
  {
    if pat == [] {
      if s != [] && c !in rep && c != s[0] {
        assert c in Replace(s[1..], pat, rep);
        ReplaceKeeps(s[1..], pat, rep, c);
      }
    } else if |s| < |pat| {
    } else if s[..|pat|] == pat {
      if c !in rep {
        ReplaceKeeps(s[|pat|..], pat, rep, c);
      }
    } else if c != s[0] {
      ReplaceKeeps(s[1..], pat, rep, c);
    }
  }

  /** Replacing a single character by text without it removes every occurrence of it. */
  lemma {:induction false} ReplaceRemoves(s: string, c: char, rep: string)
    requires c !in rep
    ensures c !in Replace(s, [c], rep)
    decreases |s|
  {
    if |s| >= 1 {
      ReplaceRemoves(s[1..], c, rep);
      if s[..1] == [c] {
        assert s[1..] == s[|[c]|..];
      }
    }
  }

  lemma {:induction false} ShortNotContains(s: string, p: string)
    requires |s| < |p|
    ensures !Contains(s, p)
    decreases |s|
  {
    if s != [] { ShortNotContains(s[1..], p); }
  }

  lemma {:induction false} NotContainsTail(s: string, p: string, k: nat)
    requires !Contains(s, p) && k <= |s|
    ensures !Contains(s[k..], p)
    decreases k
  {
    if k > 0 {
      NotContainsTail(s[1..], p, k - 1);
      assert s[1..][k - 1..] == s[k..];
    }
  }

  /** A character that `p` has and `s` lacks keeps `p` out of `s`. */
  lemma {:induction false} MissingCharNotContains(s: string, p: string, c: char)
    requires c in p && c !in s
    ensures !Contains(s, p)
    decreases |s|
  {
    if |p| <= |s| {
      var k :| 0 <= k < |p| && p[k] == c;
      assert s[..|p|][k] != c;
    }
    if s != [] {
      MissingCharNotContains(s[1..], p, c);
    }
  }

  /** Every occurrence of `[c] + p` is an occurrence of `p`. */
  lemma {:induction false} ContainsLonger(s: string, c: char, p: string)
    requires !Contains(s, p)
    ensures !Contains(s, [c] + p)
    decreases |s|
  {
    if s != [] {
      assert !StartsWith(s[1..], p);
      if |p| + 1 <= |s| { assert s[..|p| + 1][1..] == s[1..][..|p|]; }
      ContainsLonger(s[1..], c, p);
    }
  }

  /** Without an occurrence of `pat`, `replace` gives back `s` unchanged. */
  lemma {:induction false} ReplaceAbsent(s: string, pat: string, rep: string)
    requires pat != [] && !Contains(s, pat)
    ensures Replace(s, pat, rep) == s
    decreases |s|
  {
    if |s| >= |pat| {
      ReplaceAbsent(s[1..], pat, rep);
    }
  }

  /** A first character that cannot start `pat` is copied, and the scan goes on after it. */
  lemma ReplaceStep(s: string, pat: string, rep: string)
    requires pat != [] && s != [] && s[0] != pat[0]
    ensures Replace(s, pat, rep) == [s[0]] + Replace(s[1..], pat, rep)
  {
    if |s| < |pat| {
      assert Replace(s[1..], pat, rep) == s[1..];
      assert s == [s[0]] + s[1..];
    } else {
      assert s[..|pat|][0] == s[0];
    }
  }

  /** Text before the first possible start of `pat` is copied unchanged. */
  lemma {:induction false} ReplaceSkip(x: string, y: string, pat: string, rep: string)
    requires pat != [] && pat[0] !in x
    ensures Replace(x + y, pat, rep) == x + Replace(y, pat, rep)
    decreases |x|
  {
    if x == [] {
      assert x + y == y;
    } else {
      var s, t := x + y, Replace(y, pat, rep);
      assert x == [x[0]] + x[1..];
      assert s[1..] == x[1..] + y;
      ReplaceSkip(x[1..], y, pat, rep);
      ReplaceStep(s, pat, rep);
      assert [x[0]] + (x[1..] + t) == x + t;
    }
  }

  /** An occurrence at the front is replaced and the scan resumes after it. */
  lemma ReplaceFront(y: string, pat: string, rep: string)
    requires pat != []
    ensures Replace(pat + y, pat, rep) == rep + Replace(y, pat, rep)
  {
    assert (pat + y)[..|pat|] == pat;
    assert (pat + y)[|pat|..] == y;
  }

  /** Replacing a single character works piece by piece: no occurrence spans the seam. */
  lemma {:induction false} ReplaceCharSplit(x: string, y: string, c: char, rep: string)
    ensures Replace(x + y, [c], rep) == Replace(x, [c], rep) + Replace(y, [c], rep)
    decreases |x|
  {
    if x == [] {
      assert x + y == y;
    } else {
      var s, b := x + y, Replace(y, [c], rep);
      assert s[1..] == x[1..] + y && s[..1] == [x[0]] && x[..1] == [x[0]];
      ReplaceCharSplit(x[1..], y, c, rep);
      var a := Replace(x[1..], [c], rep);
      var h := if x[0] == c then rep else [x[0]];
      assert Replace(s, [c], rep) == h + (a + b);
      assert Replace(x, [c], rep) == h + a;
      assert h + (a + b) == (h + a) + b;
    }
  }

  /** Replacing a character the text lacks gives the text back. */
  lemma ReplaceCharAbsent(s: string, c: char, rep: string)
    requires c !in s
    ensures Replace(s, [c], rep) == s
  {
    MissingCharNotContains(s, [c], c);
    ReplaceAbsent(s, [c], rep);
  }

  lemma ReplaceHead(s: string, pat: string, rep: string)
    requires pat != [] && s != [] && !StartsWith(s, pat)
    ensures Replace(s, pat, rep) != [] && Replace(s, pat, rep)[0] == s[0]
  {
  }

  /** Putting the collapsed pair "xy" in front of a text free of "x y" leaves it free of "x y". */
  lemma CollapsedPairFront(rest: string, x: char, y: char)
    requires x != ' ' && y != ' ' && x != y && !Contains(rest, [x, ' ', y])
    ensures !Contains([x, y] + rest, [x, ' ', y])
  {
    var pat, r := [x, ' ', y], [x, y] + rest;
    assert !StartsWith(r, pat) by {
      if |r| >= 3 { assert r[..3][1] == y; }
    }
    assert r[1..] == [y] + rest;
    assert !StartsWith(r[1..], pat) by {
      if |r| >= 4 { assert r[1..][..3][0] == y; }
    }
    assert r[1..][1..] == rest;
  }

  /**
   * Where the text does not start with "x y", the result of the replacement does not
   * start with "x y" either.
   */
  lemma CollapseFront(s: string, x: char, y: char)
    requires x != ' ' && y != ' ' && x != y
    requires |s| >= 3 && s[..3] != [x, ' ', y]
    ensures !StartsWith([s[0]] + Replace(s[1..], [x, ' ', y], [x, y]), [x, ' ', y])
  {
    var pat, rep := [x, ' ', y], [x, y];
    var rest := Replace(s[1..], pat, rep);
    var r := [s[0]] + rest;
    if |r| >= 3 && s[0] == x {
      assert r[..3] == [x, rest[0], rest[1]];
      if StartsWith(s[1..], pat) {
        assert rest[0] == x;
      } else {
        ReplaceHead(s[1..], pat, rep);
        if s[1] == ' ' {
          assert s[..3] == [x, ' ', s[2]];
          if |s| == 3 {
            assert rest == s[1..];
          } else {
            assert s[1..][1..] == s[2..];
            assert rest == [s[1]] + Replace(s[2..], pat, rep);
            if !StartsWith(s[2..], pat) {
              ReplaceHead(s[2..], pat, rep);
            }
          }
        }
      }
    }
  }

  /**
   * Replacing "x y" (a space between two distinct non-space characters) by "xy"
   * leaves no "x y" behind.
   */
  lemma {:induction false} CollapseLeavesNone(s: string, x: char, y: char)
    requires x != ' ' && y != ' ' && x != y
    ensures !Contains(Replace(s, [x, ' ', y], [x, y]), [x, ' ', y])
    decreases |s|
  {
    var pat, rep := [x, ' ', y], [x, y];
    var r := Replace(s, pat, rep);
    if |s| < 3 {
      ShortNotContains(r, pat);
    } else if s[..3] == pat {
      CollapseLeavesNone(s[3..], x, y);
      assert r == [x, y] + Replace(s[3..], pat, rep);
      CollapsedPairFront(Replace(s[3..], pat, rep), x, y);
    } else {
      var rest := Replace(s[1..], pat, rep);
      CollapseLeavesNone(s[1..], x, y);
      assert r == [s[0]] + rest;
      assert r[1..] == rest;
      CollapseFront(s, x, y);
    }
  }

  /** Collapsing "a m" into "am" cannot create a "p m". */
  lemma {:induction false} CollapseAmKeepsNoPm(s: string)
    requires !Contains(s, "p m")
    ensures !Contains(Replace(s, "a m", "am"), "p m")
    decreases |s|
  {
    var r := Replace(s, "a m", "am");
    if |s| < 3 {
      ShortNotContains(r, "p m");
    } else if s[..3] == "a m" {
      var rest := Replace(s[3..], "a m", "am");
      NotContainsTail(s, "p m", 3);
      CollapseAmKeepsNoPm(s[3..]);
      assert r == "am" + rest;
      assert !StartsWith(r, "p m") by {
        if |r| >= 3 { assert r[..3][0] == 'a'; }
      }
      assert r[1..] == "m" + rest;
      assert !StartsWith(r[1..], "p m") by {
        if |r| >= 4 { assert r[1..][..3][0] == 'm'; }
      }
      assert r[1..][1..] == rest;
    } else {
      var rest := Replace(s[1..], "a m", "am");
      NotContainsTail(s, "p m", 1);
      CollapseAmKeepsNoPm(s[1..]);
      assert r == [s[0]] + rest;
      assert r[1..] == rest;
      assert !StartsWith(s, "p m");
      assert !StartsWith(r, "p m") by {
        if |r| >= 3 && s[0] == 'p' {
          assert r[..3] == ['p', rest[0], rest[1]];
          if StartsWith(s[1..], "a m") {
            assert rest[0] == 'a';
          } else {
            ReplaceHead(s[1..], "a m", "am");
            if s[1] == ' ' {
              assert s[..3] == ['p', ' ', s[2]];
              if |s| == 3 {
                assert rest == s[1..];
              } else {
                assert s[1..][1..] == s[2..];
                assert rest == [s[1]] + Replace(s[2..], "a m", "am");
                if !StartsWith(s[2..], "a m") {
                  ReplaceHead(s[2..], "a m", "am");
                }
              }
            }
          }
        }
      }
    }
  }
}

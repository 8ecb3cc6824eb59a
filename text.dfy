/**
 * The few Python `str` operations the crawlers and cleaning scripts use:
 * `startswith`, `endswith`, substring tests, `replace`, `strip()` and `rstrip(c)`.
 */
module Text {

  /** `s.startswith(p)` */
  predicate StartsWith(s: string, p: string)
  {
    |p| <= |s| && s[..|p|] == p
  }

  /** `s.endswith(p)` */
  predicate EndsWith(s: string, p: string)
  {
    |p| <= |s| && s[|s| - |p|..] == p
  }

  /** `p in s` for a string `p`: some position of `s` starts an occurrence of `p`. */
  predicate Contains(s: string, p: string)
    decreases |s|
  {
    StartsWith(s, p) || (|s| > 0 && Contains(s[1..], p))
  }

  /**
   * `s.replace(pat, rep)`: every occurrence of `pat`, found left to right and
   * without overlap, is replaced by `rep`. Every call site passes a non-empty
   * constant pattern.
   */
  function Replace(s: string, pat: string, rep: string): string
    requires |pat| > 0
    decreases |s|
  {
    if s == [] then []
    else if StartsWith(s, pat) then rep + Replace(s[|pat|..], pat, rep)
    else [s[0]] + Replace(s[1..], pat, rep)
  }

  /** `s[n:]`: the characters from position `n` on, empty when `s` is shorter. */
  function SliceFrom(s: string, n: nat): (r: string)
    ensures |r| == if |s| >= n then |s| - n else 0
    ensures forall i :: 0 <= i < |r| ==> r[i] == s[n + i]
  {
    if |s| >= n then s[n..] else []
  }

  /** The characters for which Python's `str.isspace()` holds. */
  predicate IsSpace(c: char)
  {
    ('\t' <= c <= '\r') || ('\U{1c}' <= c <= ' ') || c == '\U{85}' || c == '\U{a0}'
    || c == '\U{1680}' || ('\U{2000}' <= c <= '\U{200a}') || c == '\U{2028}' || c == '\U{2029}'
    || c == '\U{202f}' || c == '\U{205f}' || c == '\U{3000}'
  }

  /** A string that `strip()` leaves alone: no whitespace at either end. */
  predicate Trimmed(s: string)
  {
    s == [] || (!IsSpace(s[0]) && !IsSpace(s[|s| - 1]))
  }

  /** `s.lstrip()` */
  function LStrip(s: string): (r: string)
    ensures |r| <= |s|
    ensures r == [] || !IsSpace(r[0])
    decreases |s|
  {
    if s != [] && IsSpace(s[0]) then LStrip(s[1..]) else s
  }

  /** `s.rstrip(c)` for the character `c`. */
  function RStripChar(s: string, c: char): (r: string)
    ensures |r| <= |s|
    ensures r == [] || r[|r| - 1] != c
    decreases |s|
  {
    if s != [] && s[|s| - 1] == c then RStripChar(s[..|s| - 1], c) else s
  }

  /** `s.rstrip()` */
  function RStrip(s: string): (r: string)
    ensures |r| <= |s|
    ensures r == [] || !IsSpace(r[|r| - 1])
    decreases |s|
  {
    if s != [] && IsSpace(s[|s| - 1]) then RStrip(s[..|s| - 1]) else s
  }

  /** `lstrip()` keeps a suffix of the string and removes only whitespace before it. */
  lemma {:induction false} LStripSuffix(s: string)
    ensures forall i :: 0 <= i < |LStrip(s)| ==> LStrip(s)[i] == s[|s| - |LStrip(s)| + i]
    ensures forall i :: 0 <= i < |s| - |LStrip(s)| ==> IsSpace(s[i])
    decreases |s|
  {
    if s != [] && IsSpace(s[0]) {
      LStripSuffix(s[1..]);
      forall i | 1 <= i < |s| - |LStrip(s)| ensures IsSpace(s[i]) {
        assert s[i] == s[1..][i - 1];
      }
    }
  }

  /** `rstrip(c)` keeps a prefix of the string and removes only copies of `c` after it. */
  lemma {:induction false} RStripCharPrefix(s: string, c: char)
    ensures forall i :: 0 <= i < |RStripChar(s, c)| ==> RStripChar(s, c)[i] == s[i]
    ensures forall i :: |RStripChar(s, c)| <= i < |s| ==> s[i] == c
    decreases |s|
  {
    if s != [] && s[|s| - 1] == c {
      RStripCharPrefix(s[..|s| - 1], c);
    }
  }

  /** `rstrip()` keeps a prefix of the string and removes only whitespace after it. */
  lemma {:induction false} RStripPrefix(s: string)
    ensures forall i :: 0 <= i < |RStrip(s)| ==> RStrip(s)[i] == s[i]
    ensures forall i :: |RStrip(s)| <= i < |s| ==> IsSpace(s[i])
    decreases |s|
  {
    if s != [] && IsSpace(s[|s| - 1]) {
      RStripPrefix(s[..|s| - 1]);
    }
  }

  /** `s.strip()`: whitespace removed from both ends. */
  function Strip(s: string): (r: string)
    ensures Trimmed(r)
  {
    RStripPrefix(LStrip(s));
    RStrip(LStrip(s))
  }

  /** `lstrip()` removes only whitespace. */
  lemma {:induction false} LStripKeeps(s: string, c: char)
    requires c in s && !IsSpace(c)
    ensures c in LStrip(s)
    decreases |s|
  {
    if s != [] && IsSpace(s[0]) {
      assert s == [s[0]] + s[1..];
      LStripKeeps(s[1..], c);
    }
  }

  /** `rstrip()` removes only whitespace. */
  lemma {:induction false} RStripKeeps(s: string, c: char)
    requires c in s && !IsSpace(c)
    ensures c in RStrip(s)
    decreases |s|
  {
    if s != [] && IsSpace(s[|s| - 1]) {
      assert s == s[..|s| - 1] + [s[|s| - 1]];
      RStripKeeps(s[..|s| - 1], c);
    }
  }

  /** `strip()` removes only whitespace. */
  lemma StripKeeps(s: string, c: char)
    requires c in s && !IsSpace(c)
    ensures c in Strip(s)
  {
    LStripKeeps(s, c);
    RStripKeeps(LStrip(s), c);
  }

  /** A trimmed string is its own `strip()`. */
  lemma StripTrimmed(s: string)
    requires Trimmed(s)
    ensures Strip(s) == s
  {
    assert LStrip(s) == s;
  }

  /** `strip()` is idempotent. */
  lemma StripIdempotent(s: string)
    ensures Strip(Strip(s)) == Strip(s)
  {
    StripTrimmed(Strip(s));
  }

  /** Whitespace put in front of a trimmed string is removed by `strip()`. */
  lemma {:induction false} StripLeadingSpace(sp: string, t: string)
    requires forall i :: 0 <= i < |sp| ==> IsSpace(sp[i])
    requires Trimmed(t)
    ensures Strip(sp + t) == t
    decreases |sp|
  {
    if sp == [] {
      assert sp + t == t;
      StripTrimmed(t);
    } else {
      assert (sp + t)[1..] == sp[1..] + t;
      StripLeadingSpace(sp[1..], t);
    }
  }

  /** A string without the first character of the pattern has no occurrence to replace. */
  lemma {:induction false} ReplaceAbsent(s: string, pat: string, rep: string)
    requires |pat| > 0 && pat[0] !in s
    ensures Replace(s, pat, rep) == s
    decreases |s|
  {
    if s != [] {
      assert !StartsWith(s, pat) by { assert s[0] != pat[0]; }
      assert s[1..] + [] == s[1..];
      ReplaceAbsent(s[1..], pat, rep);
      assert [s[0]] + s[1..] == s;
    }
  }

  /** Replacing never removes a character that does not occur in the pattern. */
  lemma {:induction false} ReplaceKeeps(s: string, pat: string, rep: string, c: char)
    requires |pat| > 0 && c !in pat && c in s
    ensures c in Replace(s, pat, rep)
    decreases |s|
  {
    if StartsWith(s, pat) {
      assert s == pat + s[|pat|..];
      assert c in s[|pat|..];
      ReplaceKeeps(s[|pat|..], pat, rep, c);
    } else if s[0] != c {
      assert c in s[1..];
      ReplaceKeeps(s[1..], pat, rep, c);
    }
  }

  /**
   * Replacing a single character by a single character rewrites exactly the
   * positions holding it and keeps everything else in place.
   */
  lemma {:induction false} ReplaceCharAt(s: string, a: char, b: char)
    ensures |Replace(s, [a], [b])| == |s|
    ensures forall i :: 0 <= i < |s| ==> Replace(s, [a], [b])[i] == (if s[i] == a then b else s[i])
    decreases |s|
  {
    if s != [] {
      ReplaceCharAt(s[1..], a, b);
      var r := Replace(s, [a], [b]);
      var t := Replace(s[1..], [a], [b]);
      if s[0] == a {
        assert StartsWith(s, [a]);
        assert r == [b] + t;
      } else {
        assert !StartsWith(s, [a]);
        assert r == [s[0]] + t;
      }
      forall i | 0 < i < |s|
        ensures r[i] == (if s[i] == a then b else s[i])
      {
        assert r[i] == t[i - 1] && s[i] == s[1..][i - 1];
      }
    }
  }

  /** After a single-character replacement by another character, the old one is gone. */
  lemma ReplaceCharRemoves(s: string, a: char, b: char)
    requires a != b
    ensures a !in Replace(s, [a], [b])
  {
    ReplaceCharAt(s, a, b);
  }

  /** Whitespace put after a trimmed string is removed by `rstrip()`. */
  lemma {:induction false} RStripTrailingSpace(t: string, sp: string)
    requires t == [] || !IsSpace(t[|t| - 1])
    requires forall i :: 0 <= i < |sp| ==> IsSpace(sp[i])
    ensures RStrip(t + sp) == t
    decreases |sp|
  {
    if sp == [] {
      assert t + sp == t;
    } else {
      var s := t + sp;
      assert s[..|s| - 1] == t + sp[..|sp| - 1];
      assert IsSpace(s[|s| - 1]);
      RStripTrailingSpace(t, sp[..|sp| - 1]);
    }
  }

  /** `lstrip()` removes a string made only of whitespace entirely. */
  lemma {:induction false} LStripAllSpace(sp: string)
    requires forall i :: 0 <= i < |sp| ==> IsSpace(sp[i])
    ensures LStrip(sp) == []
    decreases |sp|
  {
    if sp != [] {
      assert IsSpace(sp[0]);
      LStripAllSpace(sp[1..]);
    }
  }

  /** Whitespace put after a trimmed string is removed by `strip()`. */
  lemma StripTrailingSpace(t: string, sp: string)
    requires Trimmed(t)
    requires forall i :: 0 <= i < |sp| ==> IsSpace(sp[i])
    ensures Strip(t + sp) == t
  {
    if t == [] {
      assert t + sp == sp;
      LStripAllSpace(sp);
    } else {
      assert (t + sp)[0] == t[0];
      assert LStrip(t + sp) == t + sp;
      RStripTrailingSpace(t, sp);
    }
  }

  /** Every character of a pattern that occurs in `s` occurs in `s`. */
  lemma {:induction false} ContainsChars(s: string, p: string, k: int)
    requires Contains(s, p) && 0 <= k < |p|
    ensures p[k] in s
    decreases |s|
  {
    if StartsWith(s, p) {
      assert s[k] == s[..|p|][k];
    } else {
      ContainsChars(s[1..], p, k);
      assert s[1..][..] == s[1..];
    }
  }

  /** A stretch without the pattern's first character passes through `replace` untouched. */
  lemma {:induction false} ReplaceAfterPlain(a: string, b: string, pat: string, rep: string)
    requires |pat| > 0 && pat[0] !in a
    ensures Replace(a + b, pat, rep) == a + Replace(b, pat, rep)
    decreases |a|
  {
    if a != [] {
      var s := a + b;
      assert s[0] == a[0];
      assert !StartsWith(s, pat) by {
        if |pat| <= |s| { assert s[..|pat|][0] == s[0]; }
      }
      assert s[1..] == a[1..] + b;
      ReplaceAfterPlain(a[1..], b, pat, rep);
      assert [a[0]] + a[1..] == a;
    } else {
      assert a + b == b;
    }
  }
}

/**
 * The JavaScript string operations the planner relies on: `trim`,
 * `Number.prototype.toString` of a non-negative integer, `padStart` and a
 * global literal `replace`.
 */
module Text {

  /** The characters `String.prototype.trim` strips: ECMAScript WhiteSpace and LineTerminator. */
  predicate IsSpace(c: char) {
    || c == '\t' || c == '\n' || c == '\U{000B}' || c == '\U{000C}' || c == '\r' || c == ' '
    || c == '\U{00A0}' || c == '\U{1680}' || ('\U{2000}' <= c <= '\U{200A}')
    || c == '\U{2028}' || c == '\U{2029}' || c == '\U{202F}' || c == '\U{205F}'
    || c == '\U{3000}' || c == '\U{FEFF}'
  }

  ghost predicate AllSpace(s: string) {
    forall i :: 0 <= i < |s| ==> IsSpace(s[i])
  }

  /** `r` is `s` with some whitespace removed from each end. */
  ghost predicate StrippedFrom(s: string, r: string) {
    exists i :: 0 <= i <= |s| - |r| && s[i..] == r + s[i + |r|..] && AllSpace(s[..i]) && AllSpace(s[i + |r|..])
  }

  /** The index of the first character of `s` at or after `i` that is not whitespace, or `|s|`. */
  function SkipSpace(s: string, i: nat): (n: nat)
    requires i <= |s|
    ensures i <= n <= |s|
    ensures forall k :: i <= k < n ==> IsSpace(s[k])
    ensures n < |s| ==> !IsSpace(s[n])
    decreases |s| - i
  {
    if i < |s| && IsSpace(s[i]) then SkipSpace(s, i + 1) else i
  }

  /** The end of `s[lo..hi]` once the whitespace just before `hi` is dropped. */
  function SkipSpaceBack(s: string, lo: nat, hi: nat): (m: nat)
    requires lo <= hi <= |s|
    ensures lo <= m <= hi
    ensures forall k :: m <= k < hi ==> IsSpace(s[k])
    ensures lo < m ==> !IsSpace(s[m - 1])
  {
    if lo < hi && IsSpace(s[hi - 1]) then SkipSpaceBack(s, lo, hi - 1) else hi
  }

  /** `String.prototype.trim`: the longest middle part of `s` that neither starts nor ends with whitespace. */
  function Trim(s: string): (r: string)
    ensures |r| <= |s|
    ensures r != [] ==> !IsSpace(r[0]) && !IsSpace(r[|r| - 1])
  {
    var a := SkipSpace(s, 0);
    var b := SkipSpaceBack(s, a, |s|);
    s[a..b]
  }

  /** What trimming removes is whitespace, from the two ends only. */
  lemma TrimStrips(s: string)
    ensures StrippedFrom(s, Trim(s))
  {
    var a := SkipSpace(s, 0);
    var b := SkipSpaceBack(s, a, |s|);
    assert s[a..] == s[a..b] + s[b..];
    assert AllSpace(s[..a]) by {
      forall k | 0 <= k < a ensures IsSpace(s[..a][k]) { assert s[..a][k] == s[k]; }
    }
    assert AllSpace(s[b..]) by {
      forall k | 0 <= k < |s| - b ensures IsSpace(s[b..][k]) { assert s[b..][k] == s[b + k]; }
    }
  }

  /** Trimming yields the empty string exactly when the input is all whitespace. */
  lemma TrimEmpty(s: string)
    ensures Trim(s) == [] <==> AllSpace(s)
  {
    var a := SkipSpace(s, 0);
    var b := SkipSpaceBack(s, a, |s|);
    if a < b {
      assert !IsSpace(s[a]);
    } else {
      assert a == b;
    }
  }

  /** A string that neither starts nor ends with whitespace is its own trim. */
  lemma TrimUntouched(s: string)
    requires s != [] ==> !IsSpace(s[0]) && !IsSpace(s[|s| - 1])
    ensures Trim(s) == s
  {
    if s != [] {
      assert SkipSpace(s, 0) == 0;
      assert SkipSpaceBack(s, 0, |s|) == |s|;
      assert s[0..|s|] == s;
    }
  }

  /** Trimming twice is trimming once. */
  lemma TrimIdempotent(s: string)
    ensures Trim(Trim(s)) == Trim(s)
  {
    TrimUntouched(Trim(s));
  }

  // ----- decimal digits -----

  predicate IsDigit(c: char) {
    '0' <= c <= '9'
  }

  predicate AllDigits(s: string) {
    forall i :: 0 <= i < |s| ==> IsDigit(s[i])
  }

  function DigitChar(d: nat): (c: char)
    requires d < 10
    ensures IsDigit(c)
  {
    ('0' as int + d) as char
  }

  function DigitValue(c: char): (d: nat)
    requires IsDigit(c)
    ensures d < 10 && DigitChar(d) == c
  {
    c as int - '0' as int
  }

  /** `Number.prototype.toString()` of a non-negative integer: its shortest decimal numeral. */
  function Decimal(n: nat): (r: string)
    ensures r != [] && AllDigits(r)
    ensures r[0] == '0' ==> n == 0 && r == "0"
  {
    if n < 10 then [DigitChar(n)] else Decimal(n / 10) + [DigitChar(n % 10)]
  }

  /** The value of a decimal numeral; the inverse of `Decimal`. */
  function ParseDecimal(s: string): nat
    requires AllDigits(s)
  {
    if s == [] then 0 else ParseDecimal(s[..|s| - 1]) * 10 + DigitValue(s[|s| - 1])
  }

  lemma {:induction false} DecimalRoundTrip(n: nat)
    ensures ParseDecimal(Decimal(n)) == n
  {
    if n >= 10 {
      var r := Decimal(n);
      assert r[..|r| - 1] == Decimal(n / 10);
      DecimalRoundTrip(n / 10);
    }
  }

  /** `s.padStart(width, fill)` for a one-character `fill`. */
  function PadStart(s: string, width: nat, fill: char): (r: string)
    ensures |r| == if |s| < width then width else |s|
    ensures r[|r| - |s|..] == s
    ensures forall i :: 0 <= i < |r| - |s| ==> r[i] == fill
  {
    if |s| < width then seq(width - |s|, _ => fill) + s else s
  }

  // ----- global literal replacement -----

  predicate StartsWith(s: string, p: string) {
    |p| <= |s| && s[..|p|] == p
  }

  ghost predicate Occurs(s: string, p: string) {
    exists i :: 0 <= i <= |s| && StartsWith(s[i..], p)
  }

  /** `s.replace(/pat/g, rep)` for a pattern without metacharacters: left to right, non-overlapping. */
  function ReplaceAll(s: string, pat: string, rep: string): (r: string)
    requires pat != []
    ensures |rep| <= |pat| ==> |r| <= |s|
    decreases |s|
  {
    if StartsWith(s, pat) then rep + ReplaceAll(s[|pat|..], pat, rep)
    else if s == [] then []
    else [s[0]] + ReplaceAll(s[1..], pat, rep)
  }

  /** A string without the pattern is left as it is. */
  lemma {:induction false} ReplaceAllNoOccurrence(s: string, pat: string, rep: string)
    requires pat != [] && !Occurs(s, pat)
    ensures ReplaceAll(s, pat, rep) == s
  {
    assert s[0..] == s;
    if s != [] {
      forall i | 0 <= i <= |s[1..]| ensures !StartsWith(s[1..][i..], pat) {
        assert s[1..][i..] == s[i + 1..];
      }
      ReplaceAllNoOccurrence(s[1..], pat, rep);
    }
  }

  /**
   * The first occurrence, after `x`, becomes `rep`, the text before it is
   * kept, and the replacement goes on after it. With `ReplaceAllNoOccurrence` this fixes
   * `ReplaceAll` on every string.
   */
  lemma {:induction false} ReplaceAllFirst(x: string, y: string, pat: string, rep: string)
    requires pat != []
    requires forall i :: 0 <= i < |x| ==> !StartsWith(x[i..] + pat + y, pat)
    ensures ReplaceAll(x + pat + y, pat, rep) == x + rep + ReplaceAll(y, pat, rep)
  {
    if x == [] {
      assert x + pat + y == pat + y;
      assert (pat + y)[..|pat|] == pat && (pat + y)[|pat|..] == y;
    } else {
      var rest := x[1..] + pat + y;
      assert x[0..] == x;
      assert x + pat + y == [x[0]] + rest;
      forall i | 0 <= i < |x[1..]| ensures !StartsWith(x[1..][i..] + pat + y, pat) {
        assert x[1..][i..] == x[i + 1..];
      }
      ReplaceAllFirst(x[1..], y, pat, rep);
      ReplaceAllCons(x[0], rest, pat, rep);
      assert x == [x[0]] + x[1..];
    }
  }

  /** A character that begins no match is kept in front of the replaced rest. */
  lemma ReplaceAllCons(c: char, rest: string, pat: string, rep: string)
    requires pat != [] && !StartsWith([c] + rest, pat)
    ensures ReplaceAll([c] + rest, pat, rep) == [c] + ReplaceAll(rest, pat, rep)
  {
    assert ([c] + rest)[1..] == rest;
  }

  /** A string begins with `q` exactly when its first character begins `q` and the rest begins the rest of `q`. */
  lemma StartsWithCons(c: char, rest: string, q: string)
    requires q != []
    ensures StartsWith([c] + rest, q) <==> c == q[0] && StartsWith(rest, q[1..])
  {
    var x := [c] + rest;
    if |q| <= |x| {
      assert x[..|q|] == [c] + rest[..|q| - 1];
      assert q == [q[0]] + q[1..];
    }
  }

  /**
   * A replacement cannot make the output begin with `q` when the input did not,
   * provided no character of `q` can have been produced by a replacement or
   * begin the pattern.
   */
  lemma {:induction false} PrefixNotCreated(x: string, q: string, pat: string, rep: string)
    requires pat != [] && rep != [] && q != []
    requires forall c :: c in q ==> c != pat[0] && c !in rep
    requires !StartsWith(x, q)
    ensures !StartsWith(ReplaceAll(x, pat, rep), q)
  {
    var r := ReplaceAll(x, pat, rep);
    assert q[0] in q;
    if StartsWith(x, pat) {
      assert r[0] == rep[0] && rep[0] in rep;
    } else if x != [] {
      var tail := ReplaceAll(x[1..], pat, rep);
      assert r == [x[0]] + tail;
      if x[0] == q[0] && |q| > 1 {
        assert x == [x[0]] + x[1..];
        StartsWithCons(x[0], x[1..], q);
        forall c | c in q[1..] ensures c != pat[0] && c !in rep { assert c in q; }
        PrefixNotCreated(x[1..], q[1..], pat, rep);
        StartsWithCons(x[0], tail, q);
      }
    }
  }

  /** With a replacement sharing no character with the pattern, no occurrence of the pattern survives. */
  lemma {:induction false} ReplaceAllRemoves(s: string, pat: string, rep: string)
    requires pat != [] && rep != []
    requires forall c :: c in rep ==> c !in pat
    requires pat[0] !in pat[1..]
    ensures !Occurs(ReplaceAll(s, pat, rep), pat)
  {
    var r := ReplaceAll(s, pat, rep);
    assert pat[0] in pat;
    if StartsWith(s, pat) {
      var rest := s[|pat|..];
      ReplaceAllRemoves(rest, pat, rep);
      var tail := ReplaceAll(rest, pat, rep);
      assert r == rep + tail;
      forall i | 0 <= i <= |r| ensures !StartsWith(r[i..], pat) {
        if i < |rep| {
          assert r[i] == rep[i] && rep[i] in rep;
        } else {
          assert r[i..] == tail[i - |rep|..];
        }
      }
    } else if s != [] {
      ReplaceAllRemoves(s[1..], pat, rep);
      var tail := ReplaceAll(s[1..], pat, rep);
      assert r == [s[0]] + tail;
      forall i | 0 <= i <= |r| ensures !StartsWith(r[i..], pat) {
        if i == 0 {
          if s[0] == pat[0] && |pat| > 1 {
            assert |pat| <= |s| ==> s[..|pat|] == [s[0]] + s[1..][..|pat| - 1];
            forall c | c in pat[1..] ensures c != pat[0] && c !in rep { assert c in pat; }
            PrefixNotCreated(s[1..], pat[1..], pat, rep);
            assert |pat| <= |r| ==> r[..|pat|] == [s[0]] + tail[..|pat| - 1];
          }
          assert r[0..] == r;
        } else {
          assert r[i..] == tail[i - 1..];
        }
      }
    }
  }

  /**
   * Replacing one pattern does not create an occurrence of another string `q`
   * that no character of the replacement belongs to and that does not contain
   * the pattern's first character after its own first position.
   */
  lemma {:induction false} ReplaceAllKeepsOut(s: string, q: string, pat: string, rep: string)
    requires pat != [] && rep != [] && q != []
    requires forall c :: c in rep ==> c !in q
    requires pat[0] !in q[1..]
    requires !Occurs(s, q)
    ensures !Occurs(ReplaceAll(s, pat, rep), q)
  {
    var r := ReplaceAll(s, pat, rep);
    assert q[0] in q;
    if StartsWith(s, pat) {
      var rest := s[|pat|..];
      forall i | 0 <= i <= |rest| ensures !StartsWith(rest[i..], q) {
        assert rest[i..] == s[i + |pat|..];
      }
      ReplaceAllKeepsOut(rest, q, pat, rep);
      var tail := ReplaceAll(rest, pat, rep);
      assert r == rep + tail;
      forall i | 0 <= i <= |r| ensures !StartsWith(r[i..], q) {
        if i < |rep| {
          assert r[i] == rep[i] && rep[i] in rep;
        } else {
          assert r[i..] == tail[i - |rep|..];
        }
      }
    } else if s != [] {
      forall i | 0 <= i <= |s[1..]| ensures !StartsWith(s[1..][i..], q) {
        assert s[1..][i..] == s[i + 1..];
      }
      ReplaceAllKeepsOut(s[1..], q, pat, rep);
      var tail := ReplaceAll(s[1..], pat, rep);
      assert r == [s[0]] + tail;
      forall i | 0 <= i <= |r| ensures !StartsWith(r[i..], q) {
        if i == 0 {
          assert s[0..] == s && r[0..] == r;
          if s[0] == q[0] && |q| > 1 {
            assert s == [s[0]] + s[1..];
            StartsWithCons(s[0], s[1..], q);
            forall c | c in q[1..] ensures c != pat[0] && c !in rep { assert c in q; }
            PrefixNotCreated(s[1..], q[1..], pat, rep);
            StartsWithCons(s[0], tail, q);
          }
        } else {
          assert r[i..] == tail[i - 1..];
        }
      }
    }
  }

  lemma SuffixKeepsOut(s: string, j: nat, q: string)
    requires j <= |s| && !Occurs(s, q)
    ensures !Occurs(s[j..], q)
  {
    forall k | 0 <= k <= |s[j..]| ensures !StartsWith(s[j..][k..], q) {
      assert s[j..][k..] == s[j + k..];
    }
  }

  lemma PrefixKeepsOut(s: string, m: nat, q: string)
    requires m <= |s| && !Occurs(s, q)
    ensures !Occurs(s[..m], q)
  {
    forall k | 0 <= k <= m ensures !StartsWith(s[..m][k..], q) {
      assert !StartsWith(s[k..], q);
      assert |q| <= m - k ==> s[..m][k..][..|q|] == s[k..][..|q|];
    }
  }

  /** Trimming cannot create an occurrence: the result is a piece of the input. */
  lemma TrimKeepsOut(s: string, q: string)
    requires !Occurs(s, q)
    ensures !Occurs(Trim(s), q)
  {
    var a := SkipSpace(s, 0);
    var b := SkipSpaceBack(s, a, |s|);
    SuffixKeepsOut(s, a, q);
    PrefixKeepsOut(s[a..], b - a, q);
    assert s[a..b] == s[a..][..b - a];
  }
}

/** The handful of JavaScript string built-ins the extension relies on,
    written as total functions over `seq<char>`:
    - `trim()`         : TrimStart / TrimEnd / Trim
    - `split(',')`     : Split
    - `Array.join(sep)`: Join
    - `toLowerCase()`  : Lower (ASCII letters only)
    - `includes(pat)`  : Contains
    `Trim` and `Contains` come with an independent characterisation and a
    lemma tying the definition to it; `Split` and `Join` are tied to each
    other as inverses; `Lower` is shown idempotent. */
module Strings {

  /** The characters `String.prototype.trim` strips: the ECMAScript
      WhiteSpace set (TAB, VT, FF, ZWNBSP and every Unicode `Zs` space)
      together with the LineTerminator set (LF, CR, LS, PS). */
  predicate IsSpace(c: char) {
    || c == '\t' || c == '\n' || c == '\U{B}' || c == '\U{C}' || c == '\r'
    || c == ' ' || c == '\U{A0}' || c == '\U{1680}'
    || ('\U{2000}' <= c <= '\U{200A}')
    || c == '\U{2028}' || c == '\U{2029}' || c == '\U{202F}' || c == '\U{205F}'
    || c == '\U{3000}' || c == '\U{FEFF}'
  }

  predicate AllSpace(s: string) {
    forall k :: 0 <= k < |s| ==> IsSpace(s[k])
  }

  /** Neither the first nor the last character is white space. */
  predicate IsTrimmed(s: string) {
    |s| == 0 || (!IsSpace(s[0]) && !IsSpace(s[|s| - 1]))
  }

  /** Drops the leading white space. */
  function TrimStart(s: string): string
    decreases |s|
  {
    if |s| > 0 && IsSpace(s[0]) then TrimStart(s[1..]) else s
  }

  /** Drops the trailing white space. */
  function TrimEnd(s: string): string
    decreases |s|
  {
    if |s| > 0 && IsSpace(s[|s| - 1]) then TrimEnd(s[..|s| - 1]) else s
  }

  /** `String.prototype.trim`: white space removed from both ends. */
  function Trim(s: string): string {
    TrimEnd(TrimStart(s))
  }

  /** TrimStart keeps the suffix of `s` that starts at its first non-space
      character. */
  lemma {:induction false} TrimStartSpec(s: string)
    ensures var r := TrimStart(s);
      && |r| <= |s| && r == s[|s| - |r|..]
      && AllSpace(s[..|s| - |r|])
      && (|r| == 0 || !IsSpace(r[0]))
    decreases |s|
  {
    if |s| > 0 && IsSpace(s[0]) {
      TrimStartSpec(s[1..]);
      var r := TrimStart(s[1..]);
      assert s[..|s| - |r|] == [s[0]] + s[1..][..|s| - 1 - |r|];
    }
  }

  /** TrimEnd keeps the prefix of `s` that ends at its last non-space
      character. */
  lemma {:induction false} TrimEndSpec(s: string)
    ensures var r := TrimEnd(s);
      && |r| <= |s| && r == s[..|r|]
      && AllSpace(s[|r|..])
      && (|r| == 0 || !IsSpace(r[|r| - 1]))
    decreases |s|
  {
    if |s| > 0 && IsSpace(s[|s| - 1]) {
      TrimEndSpec(s[..|s| - 1]);
      var r := TrimEnd(s[..|s| - 1]);
      assert s[|r|..] == s[..|s| - 1][|r|..] + [s[|s| - 1]];
    }
  }

  /** `s[i..j]` is a trimmed core of `s`: it has no white space at either
      end and only white space lies outside it. */
  predicate IsCore(s: string, i: nat, j: nat) {
    && i <= j <= |s|
    && IsTrimmed(s[i..j])
    && AllSpace(s[..i])
    && AllSpace(s[j..])
  }

  /** Trim cuts out the trimmed core of its input, which starts where
      TrimStart starts. */
  lemma {:induction false} TrimCore(s: string)
    ensures |TrimStart(s)| <= |s|
    ensures var i, r := |s| - |TrimStart(s)|, Trim(s);
      i + |r| <= |s| && r == s[i..i + |r|] && IsCore(s, i, i + |r|)
  {
    var t := TrimStart(s);
    TrimStartSpec(s);
    TrimEndSpec(t);
    CoreOfParts(s, t, TrimEnd(t));
  }

  /** A suffix cut after leading white space, then a prefix of it cut
      before trailing white space, is a trimmed core. */
  lemma {:induction false} CoreOfParts(s: string, t: string, r: string)
    requires |t| <= |s| && t == s[|s| - |t|..] && AllSpace(s[..|s| - |t|])
    requires |t| == 0 || !IsSpace(t[0])
    requires |r| <= |t| && r == t[..|r|] && AllSpace(t[|r|..])
    requires |r| == 0 || !IsSpace(r[|r| - 1])
    ensures var i := |s| - |t|;
      r == s[i..i + |r|] && IsCore(s, i, i + |r|)
  {
    var i := |s| - |t|;
    assert r == s[i..i + |r|];
    assert IsTrimmed(r) by {
      if |r| > 0 { assert r[0] == t[0]; }
    }
    assert AllSpace(s[i + |r|..]) by {
      assert s[i + |r|..] == t[|r|..];
    }
  }

  /** AllSpace distributes over concatenation. */
  lemma {:induction false} AllSpaceAppend(a: string, b: string)
    ensures AllSpace(a + b) <==> AllSpace(a) && AllSpace(b)
  {
    if AllSpace(a + b) {
      forall m | 0 <= m < |b| ensures IsSpace(b[m]) {
        assert b[m] == (a + b)[|a| + m];
      }
      forall m | 0 <= m < |a| ensures IsSpace(a[m]) {
        assert a[m] == (a + b)[m];
      }
    }
    if AllSpace(a) && AllSpace(b) {
      forall m | 0 <= m < |a + b| ensures IsSpace((a + b)[m]) {
        if m >= |a| { assert (a + b)[m] == b[m - |a|]; }
      }
    }
  }

  /** A character inside an all-space slice is white space. */
  lemma {:induction false} SpaceIn(s: string, a: nat, b: nat, m: nat)
    requires a <= b <= |s| && m < |s|
    requires AllSpace(s[a..b])
    ensures a <= m < b ==> IsSpace(s[m])
  {
    if a <= m < b {
      assert s[m] == s[a..b][m - a];
    }
  }

  /** An all-space string trims to nothing. */
  lemma {:induction false} TrimStartAllSpace(s: string)
    requires AllSpace(s)
    ensures TrimStart(s) == []
    decreases |s|
  {
    if |s| > 0 {
      assert AllSpace(s[1..]) by {
        forall m | 0 <= m < |s| - 1 ensures IsSpace(s[1..][m]) {
          assert s[1..][m] == s[m + 1];
        }
      }
      TrimStartAllSpace(s[1..]);
    }
  }

  /** Trim is determined by what it promises: any slice `s[i..j]` without
      white space at its ends and with only white space around it is
      exactly `Trim(s)`. */
  lemma {:induction false} TrimUnique(s: string, i: nat, j: nat)
    requires IsCore(s, i, j)
    ensures Trim(s) == s[i..j]
  {
    if i == j {
      assert AllSpace(s) by {
        assert s == s[..i] + s[j..];
        AllSpaceAppend(s[..i], s[j..]);
      }
      TrimStartAllSpace(s);
    } else {
      assert TrimStart(s) == s[i..] by {
        assert s[i] == s[i..j][0];
        TrimStartAt(s, i);
      }
      assert TrimEnd(s[i..]) == s[i..j] by {
        var t, e := s[i..], j - i;
        assert t[e - 1] == s[i..j][e - 1];
        assert t[e..] == s[j..];
        TrimEndAt(t, e);
        assert t[..e] == s[i..j];
      }
    }
  }

  /** TrimStart stops at the first non-space character. */
  lemma {:induction false} TrimStartAt(s: string, i: nat)
    requires i < |s| && !IsSpace(s[i]) && AllSpace(s[..i])
    ensures TrimStart(s) == s[i..]
  {
    TrimStartSpec(s);
    var t := TrimStart(s);
    var k := |s| - |t|;
    SpaceIn(s, 0, k, i);
    assert t[0] == s[k];
    SpaceIn(s, 0, i, k);
  }

  /** TrimEnd stops after the last non-space character. */
  lemma {:induction false} TrimEndAt(t: string, e: nat)
    requires 0 < e <= |t| && !IsSpace(t[e - 1]) && AllSpace(t[e..])
    ensures TrimEnd(t) == t[..e]
  {
    TrimEndSpec(t);
    var r := TrimEnd(t);
    SpaceIn(t, |r|, |t|, e - 1);
    assert r[|r| - 1] == t[|r| - 1];
    SpaceIn(t, e, |t|, |r| - 1);
  }

  /** A string that is already trimmed is left alone. */
  lemma {:induction false} TrimTrimmed(s: string)
    requires IsTrimmed(s)
    ensures Trim(s) == s
  {
    assert s[0..|s|] == s;
    TrimUnique(s, 0, |s|);
  }

  /** Trim yields the empty string exactly for all-space input. */
  lemma {:induction false} TrimEmptyIff(s: string)
    ensures Trim(s) == [] <==> AllSpace(s)
  {
    if AllSpace(s) {
      assert s[..0] == [] && s[0..0] == [];
      TrimUnique(s, 0, 0);
    }
    if Trim(s) == [] {
      TrimCore(s);
      var i := |s| - |TrimStart(s)|;
      assert s == s[..i] + s[i..];
      AllSpaceAppend(s[..i], s[i..]);
    }
  }

  /** A white-space character in front of a string does not survive trim. */
  lemma {:induction false} TrimLeadingSpace(c: char, s: string)
    requires IsSpace(c)
    ensures Trim([c] + s) == Trim(s)
  {
  }

  /** Trim leaves no white space at either end. */
  lemma {:induction false} TrimIsTrimmed(s: string)
    ensures IsTrimmed(Trim(s))
  {
    TrimCore(s);
    var i := |s| - |TrimStart(s)|;
    assert IsCore(s, i, i + |Trim(s)|);
  }

  /** Every character of Trim(s) is a character of s. */
  lemma {:induction false} TrimChars(s: string, ch: char)
    requires ch in Trim(s)
    ensures ch in s
  {
    TrimCore(s);
    var r := Trim(s);
    var i := |s| - |TrimStart(s)|;
    var k :| 0 <= k < |r| && r[k] == ch;
    assert s[i + k] == r[k];
  }

  /** Number of occurrences of `c` in `s`. */
  function Count(s: string, c: char): nat
    decreases |s|
  {
    if |s| == 0 then 0
    else (if s[0] == c then 1 else 0) + Count(s[1..], c)
  }

  /** `s.split(sep)` for a one-character separator: the maximal
      separator-free pieces of `s`, one more than there are separators, so
      that the empty string splits into one empty piece. */
  function Split(s: string, sep: char): (r: seq<string>)
    ensures |r| == Count(s, sep) + 1
    ensures forall k :: 0 <= k < |r| ==> sep !in r[k]
    decreases |s|
  {
    if |s| == 0 then [[]]
    else
      var rest := Split(s[1..], sep);
      if s[0] == sep then [[]] + rest
      else [[s[0]] + rest[0]] + rest[1..]
  }

  /** `Array.prototype.join(sep)` over strings: the parts in order with
      `sep` between each adjacent pair and nowhere else. */
  function Join(parts: seq<string>, sep: string): string
    decreases |parts|
  {
    if |parts| == 0 then []
    else if |parts| == 1 then parts[0]
    else parts[0] + sep + Join(parts[1..], sep)
  }

  /** Splitting and joining with the same separator are inverse. */
  lemma {:induction false} JoinSplit(s: string, sep: char)
    ensures Join(Split(s, sep), [sep]) == s
    decreases |s|
  {
    if |s| > 0 {
      var rest := Split(s[1..], sep);
      JoinSplit(s[1..], sep);
      if s[0] == sep {
        assert Split(s, sep)[1..] == rest;
      } else {
        var r := Split(s, sep);
        if |rest| == 1 {
          assert r == [[s[0]] + rest[0]];
        } else {
          assert r[1..] == rest[1..];
          assert Join(rest, [sep]) == rest[0] + [sep] + Join(rest[1..], [sep]);
        }
      }
      assert s == [s[0]] + s[1..];
    }
  }

  /** Splitting is a homomorphism across one separator: the pieces of
      `a + sep + b` are the pieces of `a` followed by the pieces of `b`. */
  lemma {:induction false} SplitAppend(a: string, b: string, sep: char)
    ensures Split(a + [sep] + b, sep) == Split(a, sep) + Split(b, sep)
    decreases |a|
  {
    var s := a + [sep] + b;
    if |a| == 0 {
      assert s[1..] == b;
    } else {
      assert s[1..] == a[1..] + [sep] + b;
      SplitAppend(a[1..], b, sep);
    }
  }

  /** A string without the separator is a single piece. */
  lemma {:induction false} SplitNoSeparator(s: string, sep: char)
    requires sep !in s
    ensures Split(s, sep) == [s]
    decreases |s|
  {
    if |s| > 0 {
      assert sep !in s[1..];
      SplitNoSeparator(s[1..], sep);
      assert s == [s[0]] + s[1..];
    }
  }

  /** ASCII lower-casing of one character: `A`-`Z` map to `a`-`z`. */
  function LowerChar(c: char): char {
    if 'A' <= c <= 'Z' then (c as int + 32) as char else c
  }

  /** `toLowerCase()`, restricted to ASCII letters. */
  function Lower(s: string): string {
    seq(|s|, k requires 0 <= k < |s| => LowerChar(s[k]))
  }

  /** Lower-casing is idempotent and leaves no upper-case ASCII letter. */
  lemma {:induction false} LowerIdempotent(s: string)
    ensures Lower(Lower(s)) == Lower(s)
    ensures forall k :: 0 <= k < |Lower(s)| ==> !('A' <= Lower(s)[k] <= 'Z')
  {
  }

  /** Lower-casing commutes with slicing. */
  lemma {:induction false} LowerSlice(s: string, i: nat, j: nat)
    requires i <= j <= |s|
    ensures Lower(s[i..j]) == Lower(s)[i..j]
  {
  }

  /** `pat` occurs in `text` starting at index `i`. */
  ghost predicate OccursAt(text: string, pat: string, i: int) {
    0 <= i && i + |pat| <= |text| && text[i..i + |pat|] == pat
  }

  /** The reference meaning of "substring": some occurrence exists. */
  ghost predicate IsSubstring(pat: string, text: string) {
    exists i :: OccursAt(text, pat, i)
  }

  /** `text.includes(pat)`: scan the positions of `text` left to right and
      test whether `pat` is a prefix of the remainder. */
  predicate Contains(text: string, pat: string)
    decreases |text|
  {
    (|pat| <= |text| && text[..|pat|] == pat)
    || (|text| > 0 && Contains(text[1..], pat))
  }

  /** The scan finds an occurrence exactly when one exists. */
  lemma {:induction false} ContainsIffSubstring(text: string, pat: string)
    ensures Contains(text, pat) <==> IsSubstring(pat, text)
    decreases |text|
  {
    if |pat| <= |text| && text[..|pat|] == pat {
      assert OccursAt(text, pat, 0);
    } else if |text| > 0 {
      ContainsIffSubstring(text[1..], pat);
      if Contains(text[1..], pat) {
        var i :| OccursAt(text[1..], pat, i);
        assert text[i + 1..i + 1 + |pat|] == text[1..][i..i + |pat|];
        assert OccursAt(text, pat, i + 1);
      }
      if IsSubstring(pat, text) {
        var i :| OccursAt(text, pat, i);
        assert i != 0;
        assert text[1..][i - 1..i - 1 + |pat|] == text[i..i + |pat|];
        assert OccursAt(text[1..], pat, i - 1);
      }
    } else {
      assert |pat| > 0;
      assert forall i :: !OccursAt(text, pat, i);
    }
  }

  /** Every string contains the empty string. */
  lemma {:induction false} ContainsEmpty(text: string)
    ensures Contains(text, [])
  {
  }

  /** Substring is transitive. */
  lemma {:induction false} SubstringTransitive(a: string, b: string, c: string)
    requires IsSubstring(a, b) && IsSubstring(b, c)
    ensures IsSubstring(a, c)
  {
    var i :| OccursAt(b, a, i);
    var j :| OccursAt(c, b, j);
    forall m | 0 <= m < |a| ensures c[j + i..j + i + |a|][m] == a[m] {
      assert a[m] == b[i + m] == c[j + i + m];
    }
    assert OccursAt(c, a, j + i);
  }

  /** Lower-casing preserves occurrences. */
  lemma {:induction false} SubstringLower(a: string, b: string)
    requires IsSubstring(a, b)
    ensures IsSubstring(Lower(a), Lower(b))
  {
    var i :| OccursAt(b, a, i);
    LowerSlice(b, i, i + |a|);
    assert OccursAt(Lower(b), Lower(a), i);
  }
}

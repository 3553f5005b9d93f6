/**
 * The Python `str` built-ins the resume pipeline relies on: `isspace` (which is
 * also what `\s` matches in a `str` regular expression), `lower` restricted to
 * ASCII, `' '.join`, `split()` with no argument, `strip()` and `endswith`.
 */
module PyStr {

  /** A character Python treats as whitespace: CPython's `Py_UNICODE_ISSPACE`,
      shared by `str.isspace`, `str.split()`, `str.strip()` and the regex `\s`. */
  predicate IsSpace(c: char) {
    || ('\t' <= c <= '\r')
    || ('\U{1C}' <= c <= ' ')
    || c == '\U{85}' || c == '\U{A0}' || c == '\U{1680}'
    || ('\U{2000}' <= c <= '\U{200A}')
    || c == '\U{2028}' || c == '\U{2029}' || c == '\U{202F}' || c == '\U{205F}' || c == '\U{3000}'
  }

  predicate IsUpper(c: char) { 'A' <= c <= 'Z' }

  predicate IsLower(c: char) { 'a' <= c <= 'z' }

  /** `str.lower` on one character, for the ASCII range. */
  function LowerChar(c: char): (r: char)
    ensures !IsUpper(r)
    ensures IsUpper(c) ==> IsLower(r) && r as int == c as int + 32
    ensures !IsUpper(c) ==> r == c
  {
    if IsUpper(c) then (c as int + 32) as char else c
  }

  /** `str.lower`, character by character: no capital is left, and every other
      character stays where it was. */
  function Lower(s: string): (r: string)
    ensures |r| == |s|
    ensures forall i :: 0 <= i < |s| ==> r[i] == LowerChar(s[i])
    ensures forall i :: 0 <= i < |r| ==> !IsUpper(r[i])
    ensures forall i :: 0 <= i < |s| && !IsUpper(s[i]) ==> r[i] == s[i]
  {
    seq(|s|, i requires 0 <= i < |s| => LowerChar(s[i]))
  }

  /** Lowercasing works piece by piece. */
  lemma LowerAppend(a: string, b: string)
    ensures Lower(a + b) == Lower(a) + Lower(b)
  {
    var l := Lower(a + b);
    forall i | 0 <= i < |l| ensures l[i] == (Lower(a) + Lower(b))[i] {
      if i < |a| { assert (a + b)[i] == a[i]; } else { assert (a + b)[i] == b[i - |a|]; }
    }
  }

  /** Lowercasing twice is lowercasing once. */
  lemma LowerIdempotent(s: string)
    ensures Lower(Lower(s)) == Lower(s)
  {
    var l := Lower(s);
    forall i | 0 <= i < |l| ensures Lower(l)[i] == l[i] {
      assert !IsUpper(l[i]);
    }
  }

  /** A token as `split()` produces it: non-empty, without whitespace. */
  predicate IsToken(t: string) {
    |t| > 0 && forall i :: 0 <= i < |t| ==> !IsSpace(t[i])
  }

  predicate AllSpace(s: string) {
    forall i :: 0 <= i < |s| ==> IsSpace(s[i])
  }

  /** `' '.join(parts)`. */
  function SpaceJoin(parts: seq<string>): string {
    if |parts| == 0 then ""
    else if |parts| == 1 then parts[0]
    else parts[0] + " " + SpaceJoin(parts[1..])
  }

  /** `s.lstrip()`: the suffix of `s` that starts at its first non-whitespace character. */
  function TrimStart(s: string): (r: string)
    ensures |r| <= |s| && r == s[|s| - |r|..]
    ensures r == [] || !IsSpace(r[0])
    ensures AllSpace(s[..|s| - |r|])
  {
    if |s| > 0 && IsSpace(s[0]) then
      var r := TrimStart(s[1..]);
      assert s[..|s| - |r|] == [s[0]] + s[1..][..|s| - 1 - |r|];
      r
    else s
  }

  /** `s.rstrip()`: the prefix of `s` that ends at its last non-whitespace character. */
  function TrimEnd(s: string): (r: string)
    ensures |r| <= |s| && r == s[..|r|]
    ensures r == [] || !IsSpace(r[|r| - 1])
    ensures AllSpace(s[|r|..])
  {
    if |s| > 0 && IsSpace(s[|s| - 1]) then
      var r := TrimEnd(s[..|s| - 1]);
      assert s[|r|..] == s[..|s| - 1][|r|..] + [s[|s| - 1]];
      r
    else s
  }

  /** `s.strip()`. */
  function Strip(s: string): string {
    TrimEnd(TrimStart(s))
  }

  /** The longest prefix of `s` that holds no whitespace. */
  function Word(s: string): (r: string)
    ensures |r| <= |s| && r == s[..|r|]
    ensures forall i :: 0 <= i < |r| ==> !IsSpace(r[i])
    ensures |r| == |s| || IsSpace(s[|r|])
  {
    if |s| == 0 || IsSpace(s[0]) then [] else [s[0]] + Word(s[1..])
  }

  /** `s.split()`: the maximal runs of non-whitespace characters, in order. */
  function Split(s: string): (r: seq<string>)
    ensures forall i :: 0 <= i < |r| ==> IsToken(r[i])
    ensures r == [] <==> AllSpace(s)
    decreases |s|
  {
    if s == [] then []
    else if IsSpace(s[0]) then Split(s[1..])
    else
      var w := Word(s);
      [w] + Split(s[|w|..])
  }

  /** Every character of a token of `split()` is a character of the input. */
  lemma {:induction false} SplitChars(s: string, i: nat, j: nat)
    requires i < |Split(s)| && j < |Split(s)[i]|
    ensures Split(s)[i][j] in s
    decreases |s|
  {
    if IsSpace(s[0]) {
      SplitChars(s[1..], i, j);
    } else {
      var w := Word(s);
      if i == 0 {
        assert Split(s)[0] == w;
        assert w[j] == s[j];
      } else {
        assert Split(s)[i] == Split(s[|w|..])[i - 1];
        SplitChars(s[|w|..], i - 1, j);
      }
    }
  }

  /** `s.endswith(suffix)`. */
  predicate EndsWith(s: string, suffix: string) {
    |suffix| <= |s| && s[|s| - |suffix|..] == suffix
  }

  /** `s` ends with `suffix` exactly when it is some string followed by `suffix`. */
  lemma EndsWithConcat(s: string, suffix: string)
    ensures EndsWith(s, suffix) <==> exists p :: s == p + suffix
  {
    if EndsWith(s, suffix) {
      assert s == s[..|s| - |suffix|] + suffix;
    }
    if exists p :: s == p + suffix {
      var p :| s == p + suffix;
      assert s[|s| - |suffix|..] == suffix;
    }
  }

  /** The characters of `s` that are not whitespace, in order. */
  function RemoveSpaces(s: string): (r: string)
    ensures forall i :: 0 <= i < |r| ==> !IsSpace(r[i])
  {
    if s == [] then []
    else (if IsSpace(s[0]) then [] else [s[0]]) + RemoveSpaces(s[1..])
  }

  function Concat(ts: seq<string>): string {
    if ts == [] then "" else ts[0] + Concat(ts[1..])
  }

  lemma {:induction false} RemoveSpacesAppend(a: string, b: string)
    ensures RemoveSpaces(a + b) == RemoveSpaces(a) + RemoveSpaces(b)
    decreases |a|
  {
    if a != [] {
      assert (a + b)[1..] == a[1..] + b;
      RemoveSpacesAppend(a[1..], b);
    } else {
      assert a + b == b;
    }
  }

  lemma {:induction false} RemoveSpacesOfAllSpace(s: string)
    requires AllSpace(s)
    ensures RemoveSpaces(s) == ""
    decreases |s|
  {
    if s != [] {
      RemoveSpacesOfAllSpace(s[1..]);
    }
  }

  lemma {:induction false} RemoveSpacesOfWord(s: string)
    requires forall i :: 0 <= i < |s| ==> !IsSpace(s[i])
    ensures RemoveSpaces(s) == s
    decreases |s|
  {
    if s != [] {
      RemoveSpacesOfWord(s[1..]);
    }
  }

  /** The tokens of `split()` spell out exactly the non-whitespace characters of
      the input, in their original order: splitting loses only whitespace. */
  lemma {:induction false} SplitConcat(s: string)
    ensures Concat(Split(s)) == RemoveSpaces(s)
    decreases |s|
  {
    if s != [] {
      if IsSpace(s[0]) {
        SplitConcat(s[1..]);
      } else {
        var w := Word(s);
        var rest := s[|w|..];
        assert s == w + rest;
        RemoveSpacesAppend(w, rest);
        RemoveSpacesOfWord(w);
        SplitConcat(rest);
        assert Split(s) == [w] + Split(rest);
        assert ([w] + Split(rest))[1..] == Split(rest);
      }
    }
  }

  /** `split()` undoes `' '.join` over tokens: the two are inverse on token lists. */
  lemma {:induction false} SplitSpaceJoin(ts: seq<string>)
    requires forall i :: 0 <= i < |ts| ==> IsToken(ts[i])
    ensures Split(SpaceJoin(ts)) == ts
    decreases |ts|
  {
    if |ts| == 1 {
      SplitToken(ts[0], "");
      assert ts[0] + "" == ts[0];
    } else if |ts| > 1 {
      var j := SpaceJoin(ts[1..]);
      var s := SpaceJoin(ts);
      assert s == ts[0] + (" " + j);
      SplitToken(ts[0], " " + j);
      SplitLeadingSpace(j);
      SplitSpaceJoin(ts[1..]);
      assert Split(s) == [ts[0]] + ts[1..];
      assert [ts[0]] + ts[1..] == ts;
    }
  }

  /** A token followed by nothing or by whitespace is split off whole. */
  lemma SplitToken(p: string, rest: string)
    requires IsToken(p)
    requires rest == [] || IsSpace(rest[0])
    ensures Split(p + rest) == [p] + Split(rest)
  {
    var s := p + rest;
    assert s[0] == p[0];
    assert TrimStart(s) == s;
    assert s[..|p|] == p;
    assert |p| == |s| || IsSpace(s[|p|]);
    assert Word(s) == p;
    assert s[|p|..] == rest;
  }

  /** Leading whitespace does not change what `split()` returns. */
  lemma SplitLeadingSpace(j: string)
    ensures Split(" " + j) == Split(j)
  {
    assert (" " + j)[1..] == j;
    assert TrimStart(" " + j) == TrimStart(j);
  }

  /** A space-joined list of tokens has no leading or trailing whitespace, no two
      whitespace characters in a row, and every whitespace character in it is a
      single `' '`. */
  lemma {:induction false} SpaceJoinOfTokens(ts: seq<string>)
    requires forall i :: 0 <= i < |ts| ==> IsToken(ts[i])
    ensures var r := SpaceJoin(ts);
      && (r == "" <==> ts == [])
      && (r != "" ==> !IsSpace(r[0]) && !IsSpace(r[|r| - 1]))
      && (forall i :: 0 <= i < |r| && IsSpace(r[i]) ==> r[i] == ' ')
      && (forall i :: 0 <= i < |r| - 1 ==> !(IsSpace(r[i]) && IsSpace(r[i + 1])))
    decreases |ts|
  {
    if |ts| >= 2 {
      var p := ts[0];
      var j := SpaceJoin(ts[1..]);
      SpaceJoinOfTokens(ts[1..]);
      var r := p + " " + j;
      assert SpaceJoin(ts) == r;
      forall i | 0 <= i < |r| && IsSpace(r[i]) ensures r[i] == ' ' {
        if i > |p| { assert r[i] == j[i - |p| - 1]; }
      }
      forall i | 0 <= i < |r| - 1 ensures !(IsSpace(r[i]) && IsSpace(r[i + 1])) {
        if i > |p| { assert r[i] == j[i - |p| - 1] && r[i + 1] == j[i - |p|]; }
        else if i == |p| { assert r[i + 1] == j[0]; }
        else if i == |p| - 1 { assert r[i] == p[|p| - 1]; }
        else { assert r[i] == p[i]; }
      }
      assert r[|r| - 1] == j[|j| - 1];
    }
  }

  /** Every character of `' '.join(ts)` is a space or a character of one of the parts. */
  lemma {:induction false} SpaceJoinChars(ts: seq<string>, k: nat)
    requires k < |SpaceJoin(ts)|
    ensures SpaceJoin(ts)[k] == ' ' || exists i, j :: 0 <= i < |ts| && 0 <= j < |ts[i]| && ts[i][j] == SpaceJoin(ts)[k]
    decreases |ts|
  {
    if |ts| == 1 {
      assert ts[0][k] == SpaceJoin(ts)[k];
    } else if |ts| >= 2 {
      var p := ts[0];
      if k < |p| {
        assert ts[0][k] == SpaceJoin(ts)[k];
      } else if k > |p| {
        SpaceJoinChars(ts[1..], k - |p| - 1);
        var r := SpaceJoin(ts);
        assert r[k] == SpaceJoin(ts[1..])[k - |p| - 1];
        if r[k] != ' ' {
          var i, j :| 0 <= i < |ts[1..]| && 0 <= j < |ts[1..][i]| && ts[1..][i][j] == r[k];
          assert ts[i + 1][j] == r[k];
        }
      }
    }
  }

  /** `' '.join(a + b)` is the two joins glued with one space (both sides non-empty). */
  lemma {:induction false} SpaceJoinAppend(a: seq<string>, b: seq<string>)
    requires |a| > 0 && |b| > 0
    ensures SpaceJoin(a + b) == SpaceJoin(a) + " " + SpaceJoin(b)
    decreases |a|
  {
    if |a| == 1 {
      assert (a + b)[1..] == b;
    } else {
      assert (a + b)[1..] == a[1..] + b;
      SpaceJoinAppend(a[1..], b);
    }
  }

  /** `s.strip()` is empty exactly when `s` is all whitespace. */
  lemma StripEmpty(s: string)
    ensures Strip(s) == "" <==> AllSpace(s)
  {
    var t := TrimStart(s);
    if TrimEnd(t) == "" {
      assert t == [];
      assert s[..|s|] == s;
    }
  }

  /** `s.strip()` is the slice of `s` between its first and last non-whitespace characters. */
  lemma StripSlice(s: string)
    ensures Strip(s) != "" ==> !IsSpace(Strip(s)[0]) && !IsSpace(Strip(s)[|Strip(s)| - 1])
    ensures exists i, j :: 0 <= i <= j <= |s| && Strip(s) == s[i..j]
  {
    var t := TrimStart(s);
    var r := TrimEnd(t);
    assert Strip(s) == r;
    if r != "" {
      assert r[0] == t[0];
    }
    var a := |s| - |t|;
    assert 0 <= a <= a + |r| <= |s|;
    assert r == s[a..a + |r|] by {
      assert t == s[a..] && r == t[..|r|];
    }
  }
}

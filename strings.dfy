/**
 * The string operations the Python backend and the JavaScript front end rely on:
 * Python's str.strip/str.split/str.join/str.replace, JavaScript's split, substring search
 * (`includes`) and toLowerCase, and Python's str() of an integer.
 */
module Strings {

  /** The characters for which Python's str.isspace() holds. */
  const WHITESPACE: set<char> := {
    ' ', '\t', '\n', '\r', '\U{B}', '\U{C}', '\U{1C}', '\U{1D}', '\U{1E}', '\U{1F}',
    '\U{85}', '\U{A0}', '\U{1680}', '\U{2000}', '\U{2001}', '\U{2002}', '\U{2003}',
    '\U{2004}', '\U{2005}', '\U{2006}', '\U{2007}', '\U{2008}', '\U{2009}', '\U{200A}',
    '\U{2028}', '\U{2029}', '\U{202F}', '\U{205F}', '\U{3000}'
  }

  /** The characters that Python's str.strip() removes when called without arguments. */
  predicate IsSpace(c: char) {
    c in WHITESPACE
  }

  /** A string that neither begins nor ends with whitespace. */
  predicate Stripped(s: string) {
    s == [] || (!IsSpace(s[0]) && !IsSpace(s[|s| - 1]))
  }

  /** Python's str.lstrip(): drops the leading whitespace (LStripSpec states what it returns). */
  function LStrip(s: string): (r: string)
    ensures |r| <= |s|
  {
    if s == [] || !IsSpace(s[0]) then s else LStrip(s[1..])
  }

  /** Python's str.rstrip(): drops the trailing whitespace (RStripSpec states what it returns). */
  function RStrip(s: string): (r: string)
    ensures |r| <= |s|
  {
    if s == [] || !IsSpace(s[|s| - 1]) then s else RStrip(s[..|s| - 1])
  }

  /** Where Strip(s) begins in s: the number of leading whitespace characters. */
  function StripOffset(s: string): nat {
    |s| - |LStrip(s)|
  }

  /** Python's str.strip(): drops the leading and the trailing whitespace (StripSpec states what it returns). */
  function Strip(s: string): (r: string)
    ensures |r| <= |s|
  {
    RStrip(LStrip(s))
  }

  /** LStrip(s) is the longest suffix of s that does not begin with whitespace. */
  lemma {:induction false} LStripSpec(s: string)
    ensures var r := LStrip(s);
      && r == s[|s| - |r|..]
      && (forall i :: 0 <= i < |s| - |r| ==> IsSpace(s[i]))
      && (r == [] || !IsSpace(r[0]))
  {
    if s != [] && IsSpace(s[0]) {
      LStripSpec(s[1..]);
      var r := LStrip(s);
      assert r == s[1..][|s| - 1 - |r|..];
      forall i | 0 <= i < |s| - |r| ensures IsSpace(s[i]) {
        if i > 0 {
          assert s[i] == s[1..][i - 1];
        }
      }
    }
  }

  /** RStrip(s) is the longest prefix of s that does not end with whitespace. */
  lemma {:induction false} RStripSpec(s: string)
    ensures var r := RStrip(s);
      && r == s[..|r|]
      && (forall i :: |r| <= i < |s| ==> IsSpace(s[i]))
      && (r == [] || !IsSpace(r[|r| - 1]))
  {
    if s != [] && IsSpace(s[|s| - 1]) {
      var t := s[..|s| - 1];
      RStripSpec(t);
      var r := RStrip(s);
      assert r == t[..|r|];
      forall i | |r| <= i < |s| ensures IsSpace(s[i]) {
        if i < |s| - 1 {
          assert s[i] == t[i];
        }
      }
    }
  }

  /**
   * Strip(s) is the piece of s that starts at StripOffset(s), with only whitespace outside it,
   * and it neither begins nor ends with whitespace.
   */
  lemma StripSpec(s: string)
    ensures var r := Strip(s); var a := StripOffset(s);
      && Stripped(r)
      && a + |r| <= |s| && r == s[a..a + |r|]
      && (forall i :: 0 <= i < a ==> IsSpace(s[i]))
      && (forall i :: a + |r| <= i < |s| ==> IsSpace(s[i]))
  {
    var l := LStrip(s);
    var r := RStrip(l);
    var a := |s| - |l|;
    LStripSpec(s);
    RStripSpec(l);
    assert r == s[a..a + |r|] by {
      assert l == s[a..] && r == l[..|r|];
    }
    assert Stripped(r) by {
      if r != [] {
        assert r[0] == l[0] && !IsSpace(l[0]);
      }
    }
    forall i | a + |r| <= i < |s| ensures IsSpace(s[i]) {
      assert s[i] == l[i - a];
    }
  }

  /** Python's str.split(sep), and JavaScript's s.split(sep), for a one-character separator: always at least one piece, none holding sep. */
  function Split(s: string, sep: char): (r: seq<string>)
    ensures |r| >= 1
    ensures forall i :: 0 <= i < |r| ==> sep !in r[i]
  {
    if s == [] then [[]]
    else if s[0] == sep then [[]] + Split(s[1..], sep)
    else
      var rest := Split(s[1..], sep);
      [[s[0]] + rest[0]] + rest[1..]
  }

  /** Python's sep.join(parts). */
  function Join(parts: seq<string>, sep: string): string {
    if |parts| == 0 then []
    else if |parts| == 1 then parts[0]
    else parts[0] + sep + Join(parts[1..], sep)
  }

  /** Python's `p in s`, JavaScript's s.includes(p). */
  predicate Contains(s: string, p: string) {
    exists i | 0 <= i <= |s| :: p <= s[i..]
  }

  /**
   * Python's s.replace(pat, rep): every occurrence of the literal string pat, scanned left to
   * right without overlap, is replaced by rep. Nothing is treated as a pattern.
   */
  function Replace(s: string, pat: string, rep: string): (r: string)
    requires pat != []
    ensures |rep| <= |pat| ==> |r| <= |s|
    decreases |s|
  {
    if |s| < |pat| then s
    else if pat <= s then rep + Replace(s[|pat|..], pat, rep)
    else [s[0]] + Replace(s[1..], pat, rep)
  }

  /** Replacing a pattern that does not occur changes nothing. */
  lemma {:induction false} ReplaceAbsent(s: string, pat: string, rep: string)
    requires pat != [] && !Contains(s, pat)
    ensures Replace(s, pat, rep) == s
    decreases |s|
  {
    if |s| >= |pat| {
      assert !(pat <= s) by {
        assert s[0..] == s;
      }
      ContainsTail(s, pat);
      ReplaceAbsent(s[1..], pat, rep);
    }
  }

  /** The list comprehension [line.strip() for line in lines]. */
  function StripEach(lines: seq<string>): (r: seq<string>)
    ensures |r| == |lines|
    ensures forall i :: 0 <= i < |lines| ==> r[i] == Strip(lines[i])
  {
    if lines == [] then [] else [Strip(lines[0])] + StripEach(lines[1..])
  }

  /** JavaScript's toLowerCase on one character (ASCII letters only). */
  function LowerChar(c: char): char {
    if 'A' <= c <= 'Z' then (c as int + 32) as char else c
  }

  /** JavaScript's s.toLowerCase(), on ASCII letters. */
  function ToLower(s: string): (r: string)
    ensures |r| == |s|
  {
    seq(|s|, i requires 0 <= i < |s| => LowerChar(s[i]))
  }

  function DigitChar(d: nat): char
    requires d < 10
  {
    ('0' as int + d) as char
  }

  /** Decimal digits of n, most significant first. */
  function NatToString(n: nat): (r: string)
    ensures r != [] && forall i :: 0 <= i < |r| ==> '0' <= r[i] <= '9'
  {
    if n < 10 then [DigitChar(n)] else NatToString(n / 10) + [DigitChar(n % 10)]
  }

  /** Python's str(i) for an int. */
  function IntToString(i: int): string {
    if i < 0 then "-" + NatToString(-i) else NatToString(i)
  }

  /**
   * Every line (piece between '\n' characters) of s neither begins nor ends with whitespace,
   * stated character by character: a whitespace character other than '\n' has a neighbour
   * on both sides, and neither neighbour is '\n'.
   */
  predicate LinesTrimmed(s: string) {
    forall i :: 0 <= i < |s| && s[i] != '\n' && IsSpace(s[i]) ==>
      0 < i && s[i - 1] != '\n' && i + 1 < |s| && s[i + 1] != '\n'
  }

  // ----- Lemmas -----

  lemma ContainsTail(s: string, p: string)
    requires s != []
    ensures Contains(s[1..], p) ==> Contains(s, p)
  {
    if Contains(s[1..], p) {
      var i :| 0 <= i <= |s| - 1 && p <= s[1..][i..];
      assert s[1..][i..] == s[i + 1..];
    }
  }

  /** A pattern of two or more characters is absent when no two adjacent characters match its first two. */
  lemma NotContainsByPairs(s: string, p: string)
    requires |p| >= 2
    requires forall i :: 0 <= i < |s| - 1 ==> s[i] != p[0] || s[i + 1] != p[1]
    ensures !Contains(s, p)
  {
    forall i | 0 <= i <= |s|
      ensures !(p <= s[i..])
    {
      if i < |s| - 1 {
        assert s[i..][0] == s[i] && s[i..][1] == s[i + 1];
      }
    }
  }

  /** Replacing in x + pat, where x holds no character pat begins with, rewrites only the final occurrence. */
  lemma {:induction false} ReplaceAtEnd(x: string, pat: string, rep: string)
    requires pat != [] && pat[0] !in x
    ensures Replace(x + pat, pat, rep) == x + rep
  {
    var s := x + pat;
    if x == [] {
      assert s == pat && s[|pat|..] == [];
    } else {
      assert !(pat <= s) by {
        assert s[0] == x[0] != pat[0];
      }
      assert s[1..] == x[1..] + pat;
      ReplaceAtEnd(x[1..], pat, rep);
    }
  }

  lemma ContainsTrans(s: string, m: string, p: string)
    requires Contains(s, m) && Contains(m, p)
    ensures Contains(s, p)
  {
    var i :| 0 <= i <= |s| && m <= s[i..];
    var j :| 0 <= j <= |m| && p <= m[j..];
    assert forall k :: 0 <= k < |p| ==> p[k] == m[j + k] == s[i + j + k];
    assert p <= s[i + j..];
  }

  /** Each of a, b, c occurs in a + b + c. */
  lemma ContainsParts(a: string, b: string, c: string)
    ensures Contains(a + b + c, a) && Contains(a + b + c, b) && Contains(a + b + c, c)
  {
    var s := a + b + c;
    assert a <= s[0..];
    assert b <= s[|a|..];
    assert c <= s[|a| + |b|..];
  }

  /** Joining undoes splitting: Python's sep.join(s.split(sep)) == s. */
  lemma {:induction false} JoinSplit(s: string, c: char)
    ensures Join(Split(s, c), [c]) == s
  {
    if s == [] {
    } else if s[0] == c {
      JoinSplit(s[1..], c);
      assert Split(s, c) == [[]] + Split(s[1..], c);
    } else {
      JoinSplit(s[1..], c);
      var rest := Split(s[1..], c);
      var pieces := [[s[0]] + rest[0]] + rest[1..];
      assert Split(s, c) == pieces;
      if |rest| == 1 {
        assert Join(pieces, [c]) == [s[0]] + rest[0];
      } else {
        assert pieces[1..] == rest[1..];
        assert Join(rest, [c]) == rest[0] + [c] + Join(rest[1..], [c]);
        assert Join(pieces, [c]) == [s[0]] + rest[0] + [c] + Join(rest[1..], [c]);
      }
    }
  }

  /** A string without the separator splits into itself alone. */
  lemma {:induction false} SplitNoSeparator(s: string, c: char)
    requires c !in s
    ensures Split(s, c) == [s]
  {
    if s != [] {
      assert s[0] in s;
      assert c !in s[1..] by {
        forall k | 0 <= k < |s[1..]| ensures s[1..][k] != c {
          assert s[1..][k] == s[k + 1] && s[k + 1] in s;
        }
      }
      SplitNoSeparator(s[1..], c);
      assert [s[0]] + s[1..] == s;
    }
  }

  /** The part of s after its last c, or all of s when c does not occur; read from the end. */
  function AfterLast(s: string, c: char): (r: string)
    ensures c !in r
    ensures |r| <= |s| && r == s[|s| - |r|..]
    ensures |r| == |s| || s[|s| - |r| - 1] == c
  {
    if s == [] || s[|s| - 1] == c then []
    else
      var r := AfterLast(s[..|s| - 1], c) + [s[|s| - 1]];
      assert s[..|s| - 1] + [s[|s| - 1]] == s;
      r
  }

  /** s without its trailing run of c; read from the end. */
  function DropTrailing(s: string, c: char): (r: string)
    ensures r <= s
    ensures r == [] || r[|r| - 1] != c
    ensures forall i :: |r| <= i < |s| ==> s[i] == c
  {
    if s == [] || s[|s| - 1] != c then s else DropTrailing(s[..|s| - 1], c)
  }

  /** The last piece of a split is a separator-free suffix that is the whole string or follows a separator. */
  lemma {:induction false} SplitLastPiece(s: string, c: char)
    ensures var p := Split(s, c); |p[|p| - 1]| <= |s| && p[|p| - 1] == s[|s| - |p[|p| - 1]|..]
    ensures var p := Split(s, c); |p| > 1 ==> |p[|p| - 1]| < |s|
    ensures var p := Split(s, c); |p[|p| - 1]| == |s| || s[|s| - |p[|p| - 1]| - 1] == c
  {
    if s != [] {
      var p := Split(s, c);
      var rest := Split(s[1..], c);
      SplitLastPiece(s[1..], c);
      var last := rest[|rest| - 1];
      assert s[1..][|s| - 1 - |last|..] == s[|s| - |last|..];
      if s[0] == c {
        assert p == [[]] + rest;
        assert |last| < |s| - 1 ==> s[1..][|s| - 1 - |last| - 1] == s[|s| - |last| - 1];
      } else if |rest| == 1 {
        JoinSplit(s[1..], c);
        assert [s[0]] + s[1..] == s;
        assert p == [[s[0]] + rest[0]];
      } else {
        assert p == [[s[0]] + rest[0]] + rest[1..];
        assert s[1..][|s| - 1 - |last| - 1] == s[|s| - |last| - 1];
      }
    }
  }

  /** Appending a character other than the separator extends the last piece and nothing else. */
  lemma {:induction false} SplitSnoc(q: string, x: char, c: char)
    requires x != c
    ensures var p := Split(q, c); Split(q + [x], c) == p[..|p| - 1] + [p[|p| - 1] + [x]]
  {
    if q == [] {
      assert q + [x] == [x];
      SplitSingle(x, c);
    } else {
      assert (q + [x])[0] == q[0] && (q + [x])[1..] == q[1..] + [x];
      SplitSnoc(q[1..], x, c);
      if q[0] == c {
        SplitSnocAfterSeparator(q, x, c);
      } else {
        SplitSnocInFirst(q, x, c);
      }
    }
  }

  /** A single character other than the separator is one piece. */
  lemma SplitSingle(x: char, c: char)
    requires x != c
    ensures Split([x], c) == [[x]]
  {
    assert [x][0] == x && [x][1..] == [];
    var rest := Split([x][1..], c);
    assert rest == [[]];
    assert [x] + rest[0] == [x];
  }

  /** The step of SplitSnoc when q begins with the separator. */
  lemma SplitSnocAfterSeparator(q: string, x: char, c: char)
    requires x != c && q != [] && q[0] == c
    requires (q + [x])[1..] == q[1..] + [x]
    requires var r := Split(q[1..], c); Split(q[1..] + [x], c) == r[..|r| - 1] + [r[|r| - 1] + [x]]
    ensures var p := Split(q, c); Split(q + [x], c) == p[..|p| - 1] + [p[|p| - 1] + [x]]
  {
    var rest := Split(q[1..], c);
    var p := Split(q, c);
    assert p == [[]] + rest;
    assert p[..|p| - 1] == [[]] + rest[..|rest| - 1];
  }

  /** The step of SplitSnoc when q begins with another character. */
  lemma SplitSnocInFirst(q: string, x: char, c: char)
    requires x != c && q != [] && q[0] != c
    requires (q + [x])[0] == q[0] && (q + [x])[1..] == q[1..] + [x]
    requires var r := Split(q[1..], c); Split(q[1..] + [x], c) == r[..|r| - 1] + [r[|r| - 1] + [x]]
    ensures var p := Split(q, c); Split(q + [x], c) == p[..|p| - 1] + [p[|p| - 1] + [x]]
  {
    var rest := Split(q[1..], c);
    var restX := Split(q[1..] + [x], c);
    var k := |rest|;
    var p := Split(q, c);
    assert p == [[q[0]] + rest[0]] + rest[1..];
    assert Split(q + [x], c) == [[q[0]] + restX[0]] + restX[1..];
    if k == 1 {
      assert restX == [rest[0] + [x]];
      assert [q[0]] + (rest[0] + [x]) == ([q[0]] + rest[0]) + [x];
    } else {
      assert restX[0] == rest[0];
      assert restX[1..] == rest[1..k - 1] + [rest[k - 1] + [x]];
      assert p[..|p| - 1] == [[q[0]] + rest[0]] + rest[1..k - 1];
    }
  }

  /** Read from the front by Split or from the end by AfterLast, the last piece is the same. */
  lemma {:induction false} SplitLastIsAfterLast(s: string, c: char)
    ensures var p := Split(s, c); p[|p| - 1] == AfterLast(s, c)
    decreases |s|
  {
    if s != [] {
      var n := |s| - 1;
      var q := s[..n];
      if s[n] == c {
        assert s == q + [c] + [];
        SplitConcat(q, [], c);
      } else {
        assert s == q + [s[n]];
        SplitSnoc(q, s[n], c);
        SplitLastIsAfterLast(q, c);
      }
    }
  }

  /** The last piece of a split, which JavaScript's pop() returns, is what follows the last separator, or all of the string. */
  lemma SplitLastSuffix(s: string, c: char)
    ensures var p := Split(s, c); |p[|p| - 1]| <= |s| && p[|p| - 1] == s[|s| - |p[|p| - 1]|..]
    ensures var p := Split(s, c); |p[|p| - 1]| == |s| || s[|s| - |p[|p| - 1]| - 1] == c
    ensures var p := Split(s, c); p[|p| - 1] == AfterLast(s, c)
  {
    SplitLastPiece(s, c);
    SplitLastIsAfterLast(s, c);
  }

  /** Splitting a + [c] + b at c splits a and b separately. */
  lemma {:induction false} SplitConcat(a: string, b: string, c: char)
    ensures Split(a + [c] + b, c) == Split(a, c) + Split(b, c)
  {
    var s := a + [c] + b;
    if a == [] {
      assert s[1..] == b;
    } else {
      assert s[1..] == a[1..] + [c] + b;
      SplitConcat(a[1..], b, c);
      if a[0] != c {
        var rest := Split(s[1..], c);
        var restA := Split(a[1..], c);
        assert rest == restA + Split(b, c);
        assert rest[0] == restA[0];
        assert rest[1..] == restA[1..] + Split(b, c);
      }
    }
  }

  /** Splitting undoes joining, when no piece holds the separator. */
  lemma {:induction false} SplitJoin(parts: seq<string>, c: char)
    requires |parts| >= 1
    requires forall i :: 0 <= i < |parts| ==> c !in parts[i]
    ensures Split(Join(parts, [c]), c) == parts
  {
    if |parts| == 1 {
      SplitNoSeparator(parts[0], c);
    } else {
      SplitJoin(parts[1..], c);
      SplitConcat(parts[0], Join(parts[1..], [c]), c);
      SplitNoSeparator(parts[0], c);
    }
  }

  /** Stripping each piece never lengthens the joined result. */
  lemma {:induction false} JoinStripEachNoLonger(lines: seq<string>, sep: string)
    ensures |Join(StripEach(lines), sep)| <= |Join(lines, sep)|
  {
    if |lines| >= 2 {
      JoinStripEachNoLonger(lines[1..], sep);
    }
  }

  /** Strip of a string without '\n' has no '\n'. */
  lemma StripKeepsNoNewline(s: string)
    requires '\n' !in s
    ensures '\n' !in Strip(s)
  {
    var r := Strip(s);
    var a := StripOffset(s);
    StripSpec(s);
    forall k | 0 <= k < |r| ensures r[k] != '\n' {
      assert r[k] == s[a + k];
    }
  }

  /** A single line (no '\n') satisfies LinesTrimmed exactly when it is Stripped. */
  lemma LinesTrimmedLine(a: string)
    requires '\n' !in a
    ensures LinesTrimmed(a) <==> Stripped(a)
  {
    if LinesTrimmed(a) && a != [] {
      assert a[0] in a;
      assert a[|a| - 1] in a;
    }
    if Stripped(a) {
      forall i | 0 <= i < |a| && a[i] != '\n' && IsSpace(a[i])
        ensures 0 < i && a[i - 1] != '\n' && i + 1 < |a| && a[i + 1] != '\n'
      {
        assert i != 0 && i != |a| - 1;
        assert a[i - 1] in a && a[i + 1] in a;
      }
    }
  }

  lemma LinesTrimmedConsSplits(a: string, b: string)
    requires '\n' !in a && LinesTrimmed(a + "\n" + b)
    ensures Stripped(a) && LinesTrimmed(b)
  {
    var s := a + "\n" + b;
    var n := |a| + 1;
    if a != [] {
      assert a[0] in a;
      assert a[|a| - 1] in a;
      assert s[0] == a[0] && s[|a| - 1] == a[|a| - 1] && s[|a|] == '\n';
    }
    forall j | 0 <= j < |b| && b[j] != '\n' && IsSpace(b[j])
      ensures 0 < j && b[j - 1] != '\n' && j + 1 < |b| && b[j + 1] != '\n'
    {
      assert s[n + j] == b[j];
      assert s[n + j - 1] != '\n';
      if j + 1 < |b| {
        assert s[n + j + 1] == b[j + 1];
      }
      assert j != 0;
      assert s[n + j - 1] == b[j - 1];
    }
  }

  lemma LinesTrimmedConsJoins(a: string, b: string)
    requires '\n' !in a && Stripped(a) && LinesTrimmed(b)
    ensures LinesTrimmed(a + "\n" + b)
  {
    var s := a + "\n" + b;
    var n := |a| + 1;
    forall i | 0 <= i < |s| && s[i] != '\n' && IsSpace(s[i])
      ensures 0 < i && s[i - 1] != '\n' && i + 1 < |s| && s[i + 1] != '\n'
    {
      if i < |a| {
        assert s[i] == a[i];
        assert i != 0 && i != |a| - 1;
        assert a[i - 1] in a && a[i + 1] in a;
        assert s[i - 1] == a[i - 1] && s[i + 1] == a[i + 1];
      } else {
        var j := i - n;
        assert s[i] == b[j];
        assert s[i - 1] == b[j - 1] && s[i + 1] == b[j + 1];
      }
    }
  }

  /** LinesTrimmed(a + "\n" + b), for a line a, splits into a condition on a and one on b. */
  lemma LinesTrimmedCons(a: string, b: string)
    requires '\n' !in a
    ensures LinesTrimmed(a + "\n" + b) <==> Stripped(a) && LinesTrimmed(b)
  {
    if LinesTrimmed(a + "\n" + b) {
      LinesTrimmedConsSplits(a, b);
    }
    if Stripped(a) && LinesTrimmed(b) {
      LinesTrimmedConsJoins(a, b);
    }
  }

  /** Joining lines with '\n' gives LinesTrimmed exactly when every line is Stripped. */
  lemma {:induction false} LinesTrimmedJoin(lines: seq<string>)
    requires forall i :: 0 <= i < |lines| ==> '\n' !in lines[i]
    ensures LinesTrimmed(Join(lines, "\n")) <==> forall i :: 0 <= i < |lines| ==> Stripped(lines[i])
  {
    if |lines| == 1 {
      LinesTrimmedLine(lines[0]);
    } else if |lines| >= 2 {
      LinesTrimmedJoin(lines[1..]);
      LinesTrimmedCons(lines[0], Join(lines[1..], "\n"));
      assert forall i :: 1 <= i < |lines| ==> lines[i] == lines[1..][i - 1];
    }
  }

  /** Stripping the whole string keeps every line trimmed. */
  lemma StripKeepsLinesTrimmed(s: string)
    requires LinesTrimmed(s)
    ensures LinesTrimmed(Strip(s))
  {
    var r := Strip(s);
    var a := StripOffset(s);
    StripSpec(s);
    forall i | 0 <= i < |r| && r[i] != '\n' && IsSpace(r[i])
      ensures 0 < i && r[i - 1] != '\n' && i + 1 < |r| && r[i + 1] != '\n'
    {
      assert r[i] == s[a + i];
      assert i != 0 && i != |r| - 1;
      assert r[i - 1] == s[a + i - 1] && r[i + 1] == s[a + i + 1];
    }
  }

  /** Every piece of a LinesTrimmed string, split at '\n', is Stripped. */
  lemma LinesOfTrimmed(s: string)
    requires LinesTrimmed(s)
    ensures forall line :: line in Split(s, '\n') ==> Stripped(line)
  {
    var lines := Split(s, '\n');
    JoinSplit(s, '\n');
    LinesTrimmedJoin(lines);
  }

  /** The first piece begins the joined string. */
  lemma JoinFirst(parts: seq<string>, sep: string)
    requires parts != []
    ensures parts[0] <= Join(parts, sep)
  {
  }

  /** Joining distributes over concatenation of non-empty piece lists. */
  lemma {:induction false} JoinConcat(a: seq<string>, b: seq<string>, sep: string)
    requires a != [] && b != []
    ensures Join(a + b, sep) == Join(a, sep) + sep + Join(b, sep)
  {
    assert (a + b)[0] == a[0];
    if |a| == 1 {
      assert (a + b)[1..] == b;
    } else {
      assert (a + b)[1..] == a[1..] + b;
      JoinConcat(a[1..], b, sep);
    }
  }

  /** Every piece occurs in the joined string. */
  lemma {:induction false} JoinContains(parts: seq<string>, sep: string, i: nat)
    requires i < |parts|
    ensures Contains(Join(parts, sep), parts[i])
  {
    if |parts| == 1 {
      assert parts[0] <= Join(parts, sep)[0..];
    } else {
      var rest := Join(parts[1..], sep);
      ContainsParts(parts[0], sep, rest);
      if i > 0 {
        JoinContains(parts[1..], sep, i - 1);
        ContainsTrans(Join(parts, sep), rest, parts[i]);
      }
    }
  }
}

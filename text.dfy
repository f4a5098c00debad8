/**
  The Python string operations the upload code and the met-name script rely on:
  lower(), strip(), replace(), in, split(sep) and str() of an int, with the find-style
  search they share and join as an aid to stating what split and replace do.
 */
module Text {
  import opened Wrappers

  /** The characters Python's str.isspace() (and so str.strip() with no argument) treats as whitespace. */
  const Whitespace: set<char> := {
    '\t', '\n', '\U{B}', '\U{C}', '\r', '\U{1C}', '\U{1D}', '\U{1E}', '\U{1F}', ' ',
    '\U{85}', '\U{A0}', '\U{1680}', '\U{2000}', '\U{2001}', '\U{2002}', '\U{2003}',
    '\U{2004}', '\U{2005}', '\U{2006}', '\U{2007}', '\U{2008}', '\U{2009}', '\U{200A}',
    '\U{2028}', '\U{2029}', '\U{202F}', '\U{205F}', '\U{3000}'
  }

  predicate IsUpper(c: char) {
    'A' <= c <= 'Z'
  }

  function LowerChar(c: char): (r: char)
    ensures !IsUpper(r)
    ensures !IsUpper(c) ==> r == c
  {
    if IsUpper(c) then (c as int + 32) as char else c
  }

  predicate HasNoUpper(s: string) {
    forall i :: 0 <= i < |s| ==> !IsUpper(s[i])
  }

  /** str.lower() on the ASCII letters. */
  function Lower(s: string): (r: string)
    ensures |r| == |s| && HasNoUpper(r)
    ensures forall i :: 0 <= i < |s| ==> r[i] == LowerChar(s[i])
    ensures HasNoUpper(s) ==> r == s
  {
    seq(|s|, i requires 0 <= i < |s| => LowerChar(s[i]))
  }

  /** str.replace(a, b) for single characters a and b. */
  function ReplaceChar(s: string, a: char, b: char): (r: string)
    ensures |r| == |s|
    ensures forall i :: 0 <= i < |s| ==> r[i] == if s[i] == a then b else s[i]
  {
    seq(|s|, i requires 0 <= i < |s| => if s[i] == a then b else s[i])
  }

  /**
    Replacing a by a different b leaves no a, and b then occurs as often as a and b did
    together; every other character keeps its count.
   */
  lemma {:induction false} ReplaceCharCounts(s: string, a: char, b: char)
    requires a != b
    ensures a !in ReplaceChar(s, a, b)
    ensures multiset(ReplaceChar(s, a, b)) == multiset(s)[a := 0][b := multiset(s)[b] + multiset(s)[a]]
    decreases |s|
  {
    if s != [] {
      var p, x := s[..|s| - 1], s[|s| - 1];
      var y := if x == a then b else x;
      ReplaceCharCounts(p, a, b);
      ReplaceCharSnoc(s, a, b);
      MultisetSnoc(s);
      MultisetAppend(ReplaceChar(p, a, b), y);
      CountsStep(multiset(p), multiset(ReplaceChar(p, a, b)), x, y, a, b);
    }
  }

  lemma ReplaceCharSnoc(s: string, a: char, b: char)
    requires s != []
    ensures ReplaceChar(s, a, b) == ReplaceChar(s[..|s| - 1], a, b) + [if s[|s| - 1] == a then b else s[|s| - 1]]
  {
  }

  lemma MultisetSnoc(s: string)
    requires s != []
    ensures multiset(s) == multiset(s[..|s| - 1]) + multiset{s[|s| - 1]}
  {
    assert s == s[..|s| - 1] + [s[|s| - 1]];
  }

  lemma MultisetAppend(s: string, c: char)
    ensures multiset(s + [c]) == multiset(s) + multiset{c}
  {
  }

  lemma CountsStep(m: multiset<char>, n: multiset<char>, x: char, y: char, a: char, b: char)
    requires a != b && y == (if x == a then b else x) && n == m[a := 0][b := m[b] + m[a]]
    ensures n + multiset{y} == (m + multiset{x})[a := 0][b := (m + multiset{x})[b] + (m + multiset{x})[a]]
  {
  }

  /** str.replace(a, '') for a single character a: every a is dropped, the rest keeps its order. */
  function RemoveChar(s: string, a: char): (r: string)
    ensures |r| <= |s|
    ensures forall c :: c in r <==> c in s && c != a
    ensures a !in s ==> r == s
  {
    if s == [] then [] else (if s[0] == a then [] else [s[0]]) + RemoveChar(s[1..], a)
  }

  /** Removing a drops every a and keeps the count of every other character. */
  lemma {:induction false} RemoveCharCounts(s: string, a: char)
    ensures multiset(RemoveChar(s, a)) == multiset(s)[a := 0]
    decreases |s|
  {
    if s != [] {
      RemoveCharCounts(s[1..], a);
      assert s == [s[0]] + s[1..];
      assert multiset(s) == multiset{s[0]} + multiset(s[1..]);
    }
  }

  /**
    Removing a from a concatenation removes it from each part: the characters that stay
    keep their order.
   */
  lemma {:induction false} RemoveCharConcat(s: string, t: string, a: char)
    ensures RemoveChar(s + t, a) == RemoveChar(s, a) + RemoveChar(t, a)
    decreases |s|
  {
    if s != [] {
      RemoveCharConcat(s[1..], t, a);
      var h := if s[0] == a then [] else [s[0]];
      assert (s + t)[1..] == s[1..] + t;
      calc {
        RemoveChar(s + t, a);
        h + RemoveChar(s[1..] + t, a);
        h + (RemoveChar(s[1..], a) + RemoveChar(t, a));
        (h + RemoveChar(s[1..], a)) + RemoveChar(t, a);
      }
    } else {
      assert s + t == t;
    }
  }

  /** What lstrip(cs) leaves: the longest suffix of s that does not start with a character of cs. */
  function TrimStart(s: string, cs: set<char>): (r: string)
    ensures |r| <= |s| && r == s[|s| - |r|..]
    ensures |r| > 0 ==> r[0] !in cs
    ensures forall k :: 0 <= k < |s| - |r| ==> s[k] in cs
  {
    if |s| > 0 && s[0] in cs then
      var r := TrimStart(s[1..], cs);
      assert forall k :: 1 <= k < |s| ==> s[k] == s[1..][k - 1];
      r
    else s
  }

  /** What rstrip(cs) leaves: the longest prefix of s that does not end with a character of cs. */
  function TrimEnd(s: string, cs: set<char>): (r: string)
    ensures |r| <= |s| && r == s[..|r|]
    ensures |r| > 0 ==> r[|r| - 1] !in cs
    ensures forall k :: |r| <= k < |s| ==> s[k] in cs
  {
    if |s| > 0 && s[|s| - 1] in cs then TrimEnd(s[..|s| - 1], cs) else s
  }

  predicate IsStripped(s: string, cs: set<char>) {
    |s| == 0 || (s[0] !in cs && s[|s| - 1] !in cs)
  }

  /** str.strip(chars): cuts the characters of cs from both ends of s. */
  function StripSet(s: string, cs: set<char>): (r: string)
    ensures IsStripped(r, cs) && |r| <= |s|
  {
    TrimEnd(TrimStart(s, cs), cs)
  }

  /** What strip leaves is an infix of s: it starts where lstrip stopped. */
  lemma StripInfix(s: string, cs: set<char>)
    ensures var r, a := StripSet(s, cs), |s| - |TrimStart(s, cs)|;
      && a + |r| <= |s| && (forall j :: 0 <= j < |r| ==> r[j] == s[a + j])
  {
    var t := TrimStart(s, cs);
    InfixOf(s, t, TrimEnd(t, cs), |s| - |t|, cs);
  }

  /** Everything strip cuts, before and after that infix, is a character of cs. */
  lemma StripCutsOnlyEnds(s: string, cs: set<char>)
    ensures var r, a := StripSet(s, cs), |s| - |TrimStart(s, cs)|;
      && (forall k :: 0 <= k < a ==> s[k] in cs)
      && (forall k :: a + |r| <= k < |s| ==> s[k] in cs)
  {
    var t := TrimStart(s, cs);
    InfixOf(s, t, TrimEnd(t, cs), |s| - |t|, cs);
  }

  /** A prefix r of a suffix t of s is an infix, and what t has after r, s has after it too. */
  lemma InfixOf(s: string, t: string, r: string, a: int, cs: set<char>)
    requires 0 <= a <= |s| && t == s[a..] && |r| <= |t| && r == t[..|r|]
    requires forall k :: |r| <= k < |t| ==> t[k] in cs
    ensures a + |r| <= |s| && forall j :: 0 <= j < |r| ==> r[j] == s[a + j]
    ensures forall k :: a + |r| <= k < |s| ==> s[k] in cs
  {
    forall k | a + |r| <= k < |s| ensures s[k] in cs {
      assert s[k] == t[k - a];
    }
  }

  /** str.strip() with no argument. */
  function Strip(s: string): string {
    StripSet(s, Whitespace)
  }

  lemma {:induction false} TrimStartFixed(s: string, cs: set<char>)
    requires |s| == 0 || s[0] !in cs
    ensures TrimStart(s, cs) == s
  {
  }

  /** Stripping a string that is already stripped changes nothing, so strip is idempotent. */
  lemma StripFixed(s: string, cs: set<char>)
    requires IsStripped(s, cs)
    ensures StripSet(s, cs) == s
  {
    TrimStartFixed(s, cs);
  }

  lemma StripIdempotent(s: string, cs: set<char>)
    ensures StripSet(StripSet(s, cs), cs) == StripSet(s, cs)
  {
    StripFixed(StripSet(s, cs), cs);
  }

  /** The occurrence test behind `in`, split and replace. */
  predicate MatchAt(s: string, pat: string, k: int) {
    0 <= k && k + |pat| <= |s| && s[k..k + |pat|] == pat
  }

  lemma ShiftMatch(s: string, pat: string, k: int)
    requires |s| > 0 && 0 <= k
    ensures MatchAt(s[1..], pat, k) <==> MatchAt(s, pat, k + 1)
  {
    if k + |pat| <= |s| - 1 {
      assert s[1..][k..k + |pat|] == s[k + 1..k + 1 + |pat|];
    }
  }

  /** The find-style search behind `in`: the first position at which pat occurs in s, if any. */
  function IndexOf(s: string, pat: string): Option<nat>
    decreases |s|
  {
    if |s| < |pat| then None
    else if s[..|pat|] == pat then Some(0)
    else
      match IndexOf(s[1..], pat)
      case None => None
      case Some(i) => Some(i + 1)
  }

  /** IndexOf finds the first match, and finds none only when there is none. */
  lemma {:induction false} IndexOfSpec(s: string, pat: string)
    ensures var r := IndexOf(s, pat);
      && (r.Some? ==> MatchAt(s, pat, r.value) && forall k :: 0 <= k < r.value ==> !MatchAt(s, pat, k))
      && (r.None? ==> forall k :: !MatchAt(s, pat, k))
    decreases |s|
  {
    if |s| >= |pat| && s[..|pat|] != pat {
      IndexOfSpec(s[1..], pat);
      match IndexOf(s[1..], pat)
      case None =>
        forall k | 1 <= k ensures !MatchAt(s, pat, k) {
          ShiftMatch(s, pat, k - 1);
        }
      case Some(i) =>
        ShiftMatch(s, pat, i);
        forall k | 1 <= k < i + 1 ensures !MatchAt(s, pat, k) {
          ShiftMatch(s, pat, k - 1);
        }
    }
  }

  /** Python's `pat in s`. */
  predicate Contains(s: string, pat: string) {
    IndexOf(s, pat).Some?
  }

  /** Where IndexOf finds pat, pat occurs. */
  lemma IndexOfFound(s: string, pat: string)
    ensures IndexOf(s, pat).Some? ==> MatchAt(s, pat, IndexOf(s, pat).value)
  {
    IndexOfSpec(s, pat);
  }

  lemma ContainsMatch(s: string, pat: string, k: int)
    requires MatchAt(s, pat, k)
    ensures Contains(s, pat)
  {
    IndexOfSpec(s, pat);
  }

  lemma PrefixHasNoEarlierMatch(s: string, pat: string, i: nat)
    requires i <= |s| && |pat| > 0
    requires forall k :: 0 <= k < i ==> !MatchAt(s, pat, k)
    ensures !Contains(s[..i], pat)
  {
    IndexOfSpec(s[..i], pat);
    if Contains(s[..i], pat) {
      var k := IndexOf(s[..i], pat).value;
      assert s[..i][k..k + |pat|] == s[k..k + |pat|];
      assert MatchAt(s, pat, k);
    }
  }

  /**
    str.split(sep) for a non-empty separator: the pieces between the occurrences of sep,
    found left to right without overlap. No piece contains sep.
   */
  function Split(s: string, sep: string): (r: seq<string>)
    requires |sep| > 0
    ensures |r| >= 1
    decreases |s|
  {
    IndexOfSpec(s, sep);
    match IndexOf(s, sep)
    case None => [s]
    case Some(i) => [s[..i]] + Split(s[i + |sep|..], sep)
  }

  /** No piece of a split contains the separator. */
  lemma {:induction false} SplitPiecesClean(s: string, sep: string)
    requires |sep| > 0
    ensures var r := Split(s, sep);
      forall i :: 0 <= i < |r| ==> !Contains(r[i], sep)
    decreases |s|
  {
    IndexOfSpec(s, sep);
    match IndexOf(s, sep)
    case None =>
    case Some(i) =>
      PrefixHasNoEarlierMatch(s, sep, i);
      SplitPiecesClean(s[i + |sep|..], sep);
      var r := Split(s, sep);
      assert r == [s[..i]] + Split(s[i + |sep|..], sep);
      forall k | 1 <= k < |r| ensures !Contains(r[k], sep) {
        assert r[k] == Split(s[i + |sep|..], sep)[k - 1];
      }
  }

  /** str.count(pat): the occurrences split finds, left to right and without overlap. */
  function Occurrences(s: string, pat: string): nat
    requires |pat| > 0
    decreases |s|
  {
    IndexOfSpec(s, pat);
    match IndexOf(s, pat)
    case None => 0
    case Some(i) => 1 + Occurrences(s[i + |pat|..], pat)
  }

  /** A split has one piece more than there are occurrences of the separator. */
  lemma {:induction false} SplitCount(s: string, sep: string)
    requires |sep| > 0
    ensures |Split(s, sep)| == Occurrences(s, sep) + 1
    decreases |s|
  {
    IndexOfFound(s, sep);
    match IndexOf(s, sep)
    case None =>
    case Some(i) =>
      SplitCount(s[i + |sep|..], sep);
  }

  /**
    The first piece of a split is a prefix of s without sep: all of s when sep does not
    occur, and otherwise what comes before the first sep.
   */
  lemma SplitFirst(s: string, sep: string)
    requires |sep| > 0
    ensures var p := Split(s, sep)[0];
      && |p| <= |s| && s[..|p|] == p && !Contains(p, sep)
      && (Contains(s, sep) ==> MatchAt(s, sep, |p|))
      && (!Contains(s, sep) ==> p == s)
  {
    IndexOfSpec(s, sep);
    SplitPiecesClean(s, sep);
  }

  /** sep.join(parts), used to state what split and replace do. */
  function Join(parts: seq<string>, sep: string): string
  {
    if |parts| == 0 then ""
    else if |parts| == 1 then parts[0]
    else parts[0] + sep + Join(parts[1..], sep)
  }

  lemma JoinCons(p: string, rest: seq<string>, sep: string)
    requires |rest| >= 1
    ensures Join([p] + rest, sep) == p + sep + Join(rest, sep)
  {
    assert ([p] + rest)[1..] == rest;
  }

  /** Joining the pieces of a split with the same separator gives back the original string. */
  lemma {:induction false} JoinSplit(s: string, sep: string)
    requires |sep| > 0
    ensures Join(Split(s, sep), sep) == s
    decreases |s|
  {
    IndexOfFound(s, sep);
    match IndexOf(s, sep)
    case None =>
    case Some(i) =>
      var rest := Split(s[i + |sep|..], sep);
      JoinSplit(s[i + |sep|..], sep);
      JoinCons(s[..i], rest, sep);
      assert s == s[..i] + sep + s[i + |sep|..];
  }

  lemma NoCharNoMatch(s: string, c: char)
    requires c !in s
    ensures IndexOf(s, [c]).None?
  {
    IndexOfSpec(s, [c]);
    forall k | 0 <= k < |s| ensures !MatchAt(s, [c], k) {
      assert s[k..k + 1] == [s[k]];
    }
  }

  /**
    Splitting on a one-character separator undoes joining with it, provided no part
    contains that character.
   */
  lemma {:induction false} SplitJoinChar(parts: seq<string>, c: char)
    requires |parts| >= 1
    requires forall i :: 0 <= i < |parts| ==> c !in parts[i]
    ensures Split(Join(parts, [c]), [c]) == parts
    decreases |parts|
  {
    if |parts| == 1 {
      NoCharNoMatch(parts[0], c);
    } else {
      var p := parts[0];
      var tail := Join(parts[1..], [c]);
      var s := Join(parts, [c]);
      assert s == p + [c] + tail;
      assert MatchAt(s, [c], |p|) by {
        assert s[|p|..|p| + 1] == [c];
      }
      forall k | 0 <= k < |p| ensures !MatchAt(s, [c], k) {
        assert s[k] == p[k];
        assert s[k..k + 1] == [s[k]];
      }
      IndexOfSpec(s, [c]);
      var j := IndexOf(s, [c]).value;
      assert j == |p|;
      assert s[..|p|] == p;
      assert s[|p| + 1..] == tail;
      SplitJoinChar(parts[1..], c);
      assert Split(s, [c]) == [p] + Split(tail, [c]);
    }
  }

  /** str.replace(target, with) for a non-empty target: every occurrence, left to right. */
  function Replace(s: string, target: string, with: string): string
    requires |target| > 0
    decreases |s|
  {
    IndexOfSpec(s, target);
    match IndexOf(s, target)
    case None => s
    case Some(i) => s[..i] + with + Replace(s[i + |target|..], target, with)
  }

  /** A string without the target is left as it is. */
  lemma ReplaceAbsent(s: string, target: string, with: string)
    requires |target| > 0 && !Contains(s, target)
    ensures Replace(s, target, with) == s
  {
  }

  /** Replacing an occurrence of target leaves the replacement text in the result. */
  lemma ReplaceInserts(s: string, target: string, with: string)
    requires |target| > 0 && Contains(s, target)
    ensures Contains(Replace(s, target, with), with)
  {
    IndexOfSpec(s, target);
    var i := IndexOf(s, target).value;
    var r := Replace(s, target, with);
    assert r == s[..i] + with + Replace(s[i + |target|..], target, with);
    assert r[i..i + |with|] == with;
    ContainsMatch(r, with, i);
  }

  /**
    Python's own account of str.replace: the string is split on target and the pieces are
    joined with the replacement, so every occurrence is replaced, left to right.
   */
  lemma {:induction false} ReplaceSplitJoin(s: string, target: string, with: string)
    requires |target| > 0
    ensures Replace(s, target, with) == Join(Split(s, target), with)
    decreases |s|
  {
    IndexOfSpec(s, target);
    match IndexOf(s, target)
    case None =>
    case Some(i) =>
      var rest := s[i + |target|..];
      ReplaceSplitJoin(rest, target, with);
      JoinCons(s[..i], Split(rest, target), with);
  }

  predicate IsDigit(c: char) {
    '0' <= c <= '9'
  }

  predicate AllDigits(s: string) {
    forall i :: 0 <= i < |s| ==> IsDigit(s[i])
  }

  function DigitChar(d: nat): (c: char)
    requires d < 10
    ensures IsDigit(c)
  {
    ('0' as int + d) as char
  }

  /** The decimal digits of n, most significant first, without leading zeros. */
  function NatText(n: nat): (r: string)
    ensures |r| > 0 && AllDigits(r)
    decreases n
  {
    if n < 10 then [DigitChar(n)] else NatText(n / 10) + [DigitChar(n % 10)]
  }

  /** str() of an int. */
  function IntText(n: int): string {
    if n < 0 then "-" + NatText(-n) else NatText(n)
  }

  /** The number a string of decimal digits denotes. */
  function DigitsValue(s: string): nat
    requires AllDigits(s)
  {
    if s == [] then 0 else DigitsValue(s[..|s| - 1]) * 10 + (s[|s| - 1] as int - '0' as int)
  }

  /** The inverse of IntText: an optional minus sign followed by at least one digit. */
  function ParseInt(s: string): Option<int> {
    if |s| > 1 && s[0] == '-' && AllDigits(s[1..]) then Some(0 - DigitsValue(s[1..]) as int)
    else if |s| > 0 && AllDigits(s) then Some(DigitsValue(s))
    else None
  }

  lemma {:induction false} NatTextValue(n: nat)
    ensures DigitsValue(NatText(n)) == n
    decreases n
  {
    if n >= 10 {
      NatTextValue(n / 10);
      var s := NatText(n);
      assert s[..|s| - 1] == NatText(n / 10);
    }
  }

  /** str() of an int can be read back by int(). */
  lemma IntTextRoundTrip(n: int)
    ensures ParseInt(IntText(n)) == Some(n)
  {
    if n < 0 {
      NatTextValue(-n);
      assert IntText(n)[1..] == NatText(-n);
    } else {
      NatTextValue(n);
    }
  }

  /** A split has a second piece exactly when the separator occurs. */
  lemma SplitHasSecond(s: string, sep: string)
    requires |sep| > 0
    ensures |Split(s, sep)| >= 2 <==> Contains(s, sep)
  {
    IndexOfSpec(s, sep);
  }

  /** Every character of a piece of a split is a character of the string split. */
  lemma {:induction false} SplitPiecesChars(s: string, sep: string)
    requires |sep| > 0
    ensures var r := Split(s, sep);
      forall i, x :: 0 <= i < |r| && x in r[i] ==> x in s
    decreases |s|
  {
    IndexOfSpec(s, sep);
    match IndexOf(s, sep)
    case None =>
    case Some(i) =>
      var rest := s[i + |sep|..];
      SplitPiecesChars(rest, sep);
      var r := Split(s, sep);
      assert r == [s[..i]] + Split(rest, sep);
      forall k, x | 0 <= k < |r| && x in r[k] ensures x in s {
        if k == 0 {
          assert x in s[..i];
        } else {
          assert r[k] == Split(rest, sep)[k - 1];
          assert x in rest;
        }
      }
  }

  /** Every character of a join is a character of a part or of the separator. */
  lemma {:induction false} JoinChars(parts: seq<string>, sep: string, x: char)
    requires x in Join(parts, sep)
    ensures x in sep || exists i :: 0 <= i < |parts| && x in parts[i]
    decreases |parts|
  {
    if |parts| > 1 {
      var tail := Join(parts[1..], sep);
      assert Join(parts, sep) == parts[0] + sep + tail;
      if x !in parts[0] && x !in sep {
        JoinChars(parts[1..], sep, x);
        var i :| 0 <= i < |parts| - 1 && x in parts[1..][i];
        assert x in parts[i + 1];
      }
    }
  }

  /** What strip leaves holds only characters of the string stripped. */
  lemma StripChars(s: string, cs: set<char>)
    ensures forall x :: x in StripSet(s, cs) ==> x in s
  {
    StripInfix(s, cs);
    var r, a := StripSet(s, cs), |s| - |TrimStart(s, cs)|;
    forall x | x in r ensures x in s {
      var j :| 0 <= j < |r| && r[j] == x;
      assert s[a + j] == x;
    }
  }

  /** A string holding pat holds every character of pat. */
  lemma ContainsChars(s: string, pat: string)
    requires Contains(s, pat)
    ensures forall x :: x in pat ==> x in s
  {
    IndexOfSpec(s, pat);
    var k := IndexOf(s, pat).value;
    forall x | x in pat ensures x in s {
      var j :| 0 <= j < |pat| && pat[j] == x;
      assert s[k..k + |pat|][j] == s[k + j];
    }
  }

  /** A string that lacks a character of pat does not hold pat. */
  lemma LacksChar(s: string, pat: string, x: char)
    requires x in pat && x !in s
    ensures !Contains(s, pat)
  {
    if Contains(s, pat) {
      ContainsChars(s, pat);
    }
  }

  /** A string holding pat holds every prefix of pat. */
  lemma ContainsPrefix(s: string, pat: string, q: string)
    requires Contains(s, pat) && q <= pat
    ensures Contains(s, q)
  {
    IndexOfSpec(s, pat);
    var k := IndexOf(s, pat).value;
    assert s[k..k + |q|] == q;
    ContainsMatch(s, q, k);
  }

  /** A character occurs in s exactly when the one-character string does. */
  lemma ContainsChar(s: string, x: char)
    ensures Contains(s, [x]) <==> x in s
  {
    if x in s {
      var k :| 0 <= k < |s| && s[k] == x;
      assert s[k..k + 1] == [x];
      ContainsMatch(s, [x], k);
    } else {
      NoCharNoMatch(s, x);
    }
  }
}

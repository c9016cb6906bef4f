/**
 * The few operations on Python `str` values that the bot's handlers use:
 * `find`, `split(sep)`, `replace(old, "")`, `strip()` and `str(int)`.
 * Strings are sequences of Unicode code points, as in Python.
 */
module Strings {
  import opened Wrappers

  /** Python's `str.isspace` for one code point: the characters `strip()` removes. */
  predicate IsSpace(c: char) {
    || c == ' '
    || '\t' <= c <= '\r'
    || '\U{1c}' <= c <= '\U{1f}'
    || c == '\U{85}' || c == '\U{a0}' || c == '\U{1680}'
    || '\U{2000}' <= c <= '\U{200a}'
    || c == '\U{2028}' || c == '\U{2029}' || c == '\U{202f}' || c == '\U{205f}' || c == '\U{3000}'
  }

  // ---------------------------------------------------------------------------
  // find

  /** `t` occurs in `s` starting at index `j`. */
  predicate MatchAt(s: string, t: string, j: nat) {
    j + |t| <= |s| && s[j..j + |t|] == t
  }

  /** No occurrence of `t` in `s` starts before index `i`. */
  ghost predicate NoMatchBefore(s: string, t: string, i: nat) {
    forall j: nat :: j < i ==> !MatchAt(s, t, j)
  }

  /** Python's `s.find(t)`: the leftmost index where `t` occurs, if any (see `FindLeftmost`). */
  function Find(s: string, t: string): (r: Option<nat>)
    requires t != []
    ensures r.Some? ==> r.value + |t| <= |s|
    decreases |s|
  {
    if |s| < |t| then None
    else if s[..|t|] == t then Some(0)
    else
      match Find(s[1..], t)
      case None => None
      case Some(i) => Some(i + 1)
  }

  lemma MatchAtTail(s: string, t: string, j: nat)
    requires s != []
    ensures MatchAt(s, t, j + 1) <==> MatchAt(s[1..], t, j)
  {
    if j + 1 + |t| <= |s| {
      assert s[1..][j..j + |t|] == s[j + 1..j + 1 + |t|];
    }
  }

  lemma MatchAtStart(s: string, t: string)
    requires |t| <= |s|
    ensures MatchAt(s, t, 0) <==> s[..|t|] == t
  {
    assert s[0..|t|] == s[..|t|];
  }

  /**
   * `find` gives the leftmost occurrence: there is a match at the index it
   * returns and none before it; when it returns nothing, `t` occurs nowhere.
   */
  lemma {:induction false} FindLeftmost(s: string, t: string)
    requires t != []
    ensures Find(s, t).Some? ==> MatchAt(s, t, Find(s, t).value) && NoMatchBefore(s, t, Find(s, t).value)
    ensures Find(s, t).None? ==> forall j: nat :: !MatchAt(s, t, j)
    decreases |s|
  {
    if |s| >= |t| {
      MatchAtStart(s, t);
      if s[..|t|] != t {
        FindLeftmost(s[1..], t);
        forall j: nat ensures MatchAt(s, t, j) ==> j >= 1 && MatchAt(s[1..], t, j - 1) {
          if j >= 1 {
            MatchAtTail(s, t, j - 1);
          }
        }
        match Find(s[1..], t)
        case None =>
        case Some(i) => MatchAtTail(s, t, i);
      }
    }
  }

  /** The leftmost match is the only index with a match and none before it. */
  lemma FindIs(s: string, t: string, i: nat)
    requires t != [] && MatchAt(s, t, i) && NoMatchBefore(s, t, i)
    ensures Find(s, t) == Some(i)
  {
    FindLeftmost(s, t);
  }

  /** A piece cut before the leftmost match holds no match. */
  lemma NoMatchInPrefix(s: string, t: string, i: nat)
    requires t != [] && i <= |s| && NoMatchBefore(s, t, i)
    ensures Find(s[..i], t).None?
  {
    FindLeftmost(s[..i], t);
    forall j: nat ensures !MatchAt(s[..i], t, j) {
      if j + |t| <= i {
        assert s[..i][j..j + |t|] == s[j..j + |t|];
        assert !MatchAt(s, t, j);
      }
    }
  }

  /** When `t` is not at the start, `find` continues in the tail. */
  lemma FindTail(s: string, t: string, i: nat)
    requires t != [] && Find(s, t) == Some(i) && 1 <= i
    ensures |s| >= |t| && s[..|t|] != t && Find(s[1..], t) == Some(i - 1)
  {
  }

  // ---------------------------------------------------------------------------
  // join and split

  /** Python's `sep.join(parts)`. */
  function Join(parts: seq<string>, sep: string): string
    decreases |parts|
  {
    if |parts| == 0 then ""
    else if |parts| == 1 then parts[0]
    else parts[0] + sep + Join(parts[1..], sep)
  }

  lemma JoinCons(x: string, rest: seq<string>, sep: string)
    requires |rest| >= 1
    ensures Join([x] + rest, sep) == x + sep + Join(rest, sep)
  {
    assert ([x] + rest)[1..] == rest;
  }

  lemma JoinThree(parts: seq<string>, sep: string)
    requires |parts| == 3
    ensures Join(parts, sep) == parts[0] + sep + parts[1] + sep + parts[2]
  {
    assert parts[1..][1..] == [parts[2]];
    assert Join(parts[1..], sep) == parts[1] + sep + parts[2];
  }

  /**
   * Python's `s.split(sep)` for a non-empty separator: the pieces between the
   * leftmost non-overlapping occurrences of `sep`.
   */
  function Split(s: string, sep: string): (r: seq<string>)
    requires sep != []
    ensures |r| >= 1
    decreases |s|
  {
    match Find(s, sep)
    case None => [s]
    case Some(i) => [s[..i]] + Split(s[i + |sep|..], sep)
  }

  lemma SplitAt(s: string, sep: string, i: nat)
    requires sep != [] && Find(s, sep) == Some(i)
    ensures i + |sep| <= |s|
    ensures Split(s, sep) == [s[..i]] + Split(s[i + |sep|..], sep)
  {
    FindMatches(s, sep);
    RebuildAt(s, sep, i);
    SplitAfterPiece(s[..i], sep, s[i + |sep|..]);
  }

  /** `s` is the text before position `i`, then `t`, then the rest. */
  lemma RebuildAt(s: string, t: string, i: nat)
    requires MatchAt(s, t, i)
    ensures s[..i] + t + s[i + |t|..] == s
  {
    assert s == s[..i] + s[i..i + |t|] + s[i + |t|..];
  }

  /** Joining the pieces of `split(sep)` with `sep` gives back the text. */
  lemma {:induction false} SplitJoinsBack(s: string, sep: string)
    requires sep != []
    ensures Join(Split(s, sep), sep) == s
    decreases |s|
  {
    match Find(s, sep)
    case None =>
    case Some(i) =>
      var rest := s[i + |sep|..];
      SplitAt(s, sep, i);
      FindLeftmost(s, sep);
      RebuildAt(s, sep, i);
      SplitJoinsBack(rest, sep);
      JoinCons(s[..i], Split(rest, sep), sep);
  }

  /** No piece of `split(sep)` contains `sep`. */
  lemma {:induction false} SplitPiecesLackSep(s: string, sep: string)
    requires sep != []
    ensures forall k :: 0 <= k < |Split(s, sep)| ==> Find(Split(s, sep)[k], sep).None?
    decreases |s|
  {
    match Find(s, sep)
    case None =>
    case Some(i) =>
      var rest := s[i + |sep|..];
      SplitAt(s, sep, i);
      FindLeftmost(s, sep);
      NoMatchInPrefix(s, sep, i);
      SplitPiecesLackSep(rest, sep);
      var r := Split(s, sep);
      assert forall k :: 1 <= k < |r| ==> r[k] == Split(rest, sep)[k - 1];
  }

  /** `split(sep)` gives a single piece exactly when `sep` does not occur. */
  lemma SplitSingle(s: string, sep: string)
    requires sep != []
    ensures |Split(s, sep)| == 1 <==> Find(s, sep).None?
  {
    match Find(s, sep)
    case None =>
    case Some(i) => SplitAt(s, sep, i);
  }

  /**
   * When `split(sep)` gives three pieces, the first cut is the leftmost
   * occurrence of `sep` in the text, and the second is the leftmost one in
   * what follows it.
   */
  lemma SplitThreeCuts(s: string, sep: string)
    requires sep != [] && |Split(s, sep)| == 3
    ensures var p := Split(s, sep);
            Find(s, sep) == Some(|p[0]|) && Find(p[1] + sep + p[2], sep) == Some(|p[1]|)
  {
    var p := Split(s, sep);
    match Find(s, sep)
    case None =>
    case Some(i) =>
      SplitAt(s, sep, i);
      var rest := s[i + |sep|..];
      var q := Split(rest, sep);
      assert p[0] == s[..i] && q == p[1..];
      match Find(rest, sep)
      case None =>
      case Some(j) =>
        SplitAt(rest, sep, j);
        var last := rest[j + |sep|..];
        SplitSingle(last, sep);
        assert q == [rest[..j]] + Split(last, sep);
        assert Split(last, sep) == [last];
        assert p[1] == rest[..j] && p[2] == last;
        FindMatches(rest, sep);
        RebuildAt(rest, sep, j);
  }

  /** `sep[m]` occurs in `sep` only at index `m`. */
  predicate MarkerOf(sep: string, m: nat) {
    m < |sep| && forall j :: 0 <= j < |sep| && j != m ==> sep[j] != sep[m]
  }

  /** A text that lacks the marker character of `sep` holds no match of `sep`. */
  lemma NoMatchWithoutMarker(s: string, sep: string, m: nat)
    requires m < |sep| && sep[m] !in s
    ensures Find(s, sep).None?
  {
    FindLeftmost(s, sep);
    forall j: nat ensures !MatchAt(s, sep, j) {
      if j + |sep| <= |s| {
        assert s[j..j + |sep|][m] == s[j + m];
      }
    }
  }

  /** In `p + sep + rest`, with no marker character in `p`, the leftmost match is right after `p`. */
  lemma FirstMatchAfterPiece(p: string, sep: string, rest: string, m: nat)
    requires MarkerOf(sep, m) && sep[m] !in p
    ensures Find(p + sep + rest, sep) == Some(|p|)
  {
    var s := p + sep + rest;
    assert s[|p|..|p| + |sep|] == sep;
    forall j: nat | j < |p| ensures !MatchAt(s, sep, j) {
      if j + |sep| <= |s| {
        assert s[j..j + |sep|][m] == s[j + m];
        if j + m < |p| {
          assert s[j + m] == p[j + m];
        } else {
          assert s[j + m] == sep[j + m - |p|];
        }
      }
    }
    FindIs(s, sep, |p|);
  }

  lemma SplitAfterPiece(p: string, sep: string, rest: string)
    requires sep != [] && Find(p + sep + rest, sep) == Some(|p|)
    ensures Split(p + sep + rest, sep) == [p] + Split(rest, sep)
  {
    var s := p + sep + rest;
    assert s[..|p|] == p;
    assert s[|p| + |sep|..] == rest;
  }

  /**
   * Splitting a join gives the parts back when no part contains a character
   * that occurs in the separator exactly once (`|` in `" | "`, the newline in `"\n"`).
   */
  lemma {:induction false} SplitJoin(parts: seq<string>, sep: string, m: nat)
    requires |parts| >= 1 && MarkerOf(sep, m)
    requires forall k :: 0 <= k < |parts| ==> sep[m] !in parts[k]
    ensures Split(Join(parts, sep), sep) == parts
    decreases |parts|
  {
    if |parts| == 1 {
      NoMatchWithoutMarker(parts[0], sep, m);
    } else {
      var rest := Join(parts[1..], sep);
      FirstMatchAfterPiece(parts[0], sep, rest, m);
      SplitAfterPiece(parts[0], sep, rest);
      SplitJoin(parts[1..], sep, m);
      assert parts == [parts[0]] + parts[1..];
    }
  }

  /** The three-field case of `SplitJoin`. */
  lemma SplitThree(a: string, b: string, c: string, sep: string, m: nat)
    requires MarkerOf(sep, m) && sep[m] !in a && sep[m] !in b && sep[m] !in c
    ensures Split(a + sep + b + sep + c, sep) == [a, b, c]
  {
    var parts := [a, b, c];
    JoinThree(parts, sep);
    assert forall k :: 0 <= k < |parts| ==> sep[m] !in parts[k];
    SplitJoin(parts, sep, m);
  }

  // ---------------------------------------------------------------------------
  // replace

  /**
   * Python's `s.replace(t, "")`: one left-to-right pass that deletes every
   * non-overlapping occurrence of `t`.
   */
  function RemoveAll(s: string, t: string): (r: string)
    requires t != []
    ensures |r| <= |s|
    decreases |s|
  {
    if |s| < |t| then s
    else if s[..|t|] == t then RemoveAll(s[|t|..], t)
    else [s[0]] + RemoveAll(s[1..], t)
  }

  /** Where `t` does not occur, `replace(t, "")` changes nothing. */
  lemma {:induction false} RemoveAllNoMatch(s: string, t: string)
    requires t != [] && Find(s, t).None?
    ensures RemoveAll(s, t) == s
    decreases |s|
  {
    if |s| >= |t| {
      RemoveAllNoMatch(s[1..], t);
      assert [s[0]] + s[1..] == s;
    }
  }

  /** Where `t` is not at the start, `replace` keeps the first character. */
  lemma RemoveAllSkip(s: string, t: string)
    requires t != [] && |t| <= |s| && s[..|t|] != t
    ensures RemoveAll(s, t) == [s[0]] + RemoveAll(s[1..], t)
  {
  }

  /** `find` gives an index where `t` occurs. */
  lemma {:induction false} FindMatches(s: string, t: string)
    requires t != [] && Find(s, t).Some?
    ensures MatchAt(s, t, Find(s, t).value)
    decreases |s|
  {
    if s[..|t|] != t {
      FindMatches(s[1..], t);
      MatchAtTail(s, t, Find(s[1..], t).value);
    } else {
      MatchAtStart(s, t);
    }
  }

  /**
   * When the leftmost occurrence of `t` follows the piece `p`, `replace`
   * keeps `p`, deletes that occurrence and goes on after it.
   */
  lemma {:induction false} RemoveAllPiece(p: string, t: string, q: string)
    requires t != [] && Find(p + t + q, t) == Some(|p|)
    ensures RemoveAll(p + t + q, t) == p + RemoveAll(q, t)
    decreases |p|
  {
    if p == [] {
      RemoveAllAtStart(t, q);
    } else {
      var s := p + t + q;
      FindTail(s, t, |p|);
      assert s[1..] == p[1..] + t + q;
      RemoveAllPiece(p[1..], t, q);
      RemoveAllSkip(s, t);
      ConsPiece(p, RemoveAll(q, t), s[0], RemoveAll(s, t), RemoveAll(s[1..], t));
    }
  }

  /** `replace` deletes an occurrence of `t` at the very start. */
  lemma RemoveAllAtStart(t: string, q: string)
    requires t != []
    ensures RemoveAll([] + t + q, t) == [] + RemoveAll(q, t)
  {
    var s := [] + t + q;
    assert s[..|t|] == t && s[|t|..] == q;
  }

  lemma ConsPiece(p: string, rest: string, c: char, whole: string, tail: string)
    requires p != [] && c == p[0]
    requires whole == [c] + tail && tail == p[1..] + rest
    ensures whole == p + rest
  {
    assert [p[0]] + p[1..] == p;
  }

  /**
   * `s.replace(t, "")` equals `"".join(s.split(t))`: the one-pass deletion
   * agrees with an independent definition through `split`.
   */
  lemma {:induction false} RemoveAllIsJoinedSplit(s: string, t: string)
    requires t != []
    ensures RemoveAll(s, t) == Join(Split(s, t), "")
    decreases |s|
  {
    match Find(s, t)
    case None =>
      RemoveAllNoMatch(s, t);
    case Some(i) =>
      var rest := s[i + |t|..];
      FindMatches(s, t);
      RebuildAt(s, t, i);
      RemoveAllPiece(s[..i], t, rest);
      SplitAt(s, t, i);
      RemoveAllIsJoinedSplit(rest, t);
      JoinCons(s[..i], Split(rest, t), "");
      assert s[..i] + "" == s[..i];
  }

  // ---------------------------------------------------------------------------
  // strip
  /** Python's `lstrip()`: `r` is the suffix of `s` left after dropping leading whitespace. */
  function TrimStart(s: string): (r: string)
    ensures |r| <= |s| && r == s[|s| - |r|..]
    ensures forall k :: 0 <= k < |s| - |r| ==> IsSpace(s[k])
    ensures r != [] ==> !IsSpace(r[0])
  {
    if s != [] && IsSpace(s[0]) then TrimStart(s[1..]) else s
  }

  /** Python's `rstrip()`: `r` is the prefix of `s` left after dropping trailing whitespace. */
  function TrimEnd(s: string): (r: string)
    ensures |r| <= |s| && r == s[..|r|]
    ensures forall k :: |r| <= k < |s| ==> IsSpace(s[k])
    ensures r != [] ==> !IsSpace(r[|r| - 1])
  {
    if s != [] && IsSpace(s[|s| - 1]) then TrimEnd(s[..|s| - 1]) else s
  }

  /** Python's `strip()`: drops leading and trailing whitespace. */
  function Strip(s: string): (r: string)
    ensures r != [] ==> !IsSpace(r[0]) && !IsSpace(r[|r| - 1])
    ensures |r| <= |s|
    ensures (forall k :: 0 <= k < |s| ==> IsSpace(s[k])) <==> r == []
    ensures var i := |s| - |TrimStart(s)|;
            i + |r| <= |s| && r == s[i..i + |r|]
            && (forall k :: 0 <= k < i ==> IsSpace(s[k]))
            && (forall k :: i + |r| <= k < |s| ==> IsSpace(s[k]))
  {
    var l := TrimStart(s);
    var r := TrimEnd(l);
    StripPieces(s, l, r);
    r
  }

  /**
   * The facts behind `Strip`, for a suffix `l` of `s` after leading
   * whitespace and a prefix `r` of `l` before trailing whitespace.
   */
  lemma StripPieces(s: string, l: string, r: string)
    requires |l| <= |s| && l == s[|s| - |l|..] && (l != [] ==> !IsSpace(l[0]))
    requires forall k :: 0 <= k < |s| - |l| ==> IsSpace(s[k])
    requires |r| <= |l| && r == l[..|r|] && (r != [] ==> !IsSpace(r[|r| - 1]))
    requires forall k :: |r| <= k < |l| ==> IsSpace(l[k])
    ensures r != [] ==> !IsSpace(r[0])
    ensures (forall k :: 0 <= k < |s| ==> IsSpace(s[k])) <==> r == []
    ensures var i := |s| - |l|;
            i + |r| <= |s| && r == s[i..i + |r|] && forall k :: i + |r| <= k < |s| ==> IsSpace(s[k])
  {
    var i := |s| - |l|;
    forall k | i <= k < |s| ensures s[k] == l[k - i] {
    }
    if r != [] {
      assert r[0] == l[0] == s[i];
    }
  }

  /** The decimal digit character for `d`. */
  function DigitChar(d: nat): (c: char)
    requires d < 10
    ensures '0' <= c <= '9'
  {
    (48 + d) as char
  }

  predicate IsDigits(s: string) {
    forall k :: 0 <= k < |s| ==> '0' <= s[k] <= '9'
  }

  /** Python's `str(n)` for a non-negative integer: decimal, without leading zeros. */
  function NatToDecimal(n: nat): (r: string)
    ensures r != [] && IsDigits(r)
    ensures r[0] == '0' ==> n == 0
    decreases n
  {
    if n < 10 then [DigitChar(n)] else NatToDecimal(n / 10) + [DigitChar(n % 10)]
  }

  /** The number a string of decimal digits denotes (Python's `int(s)` on digits). */
  function DecimalValue(s: string): nat
    requires IsDigits(s)
    decreases |s|
  {
    if s == [] then 0 else 10 * DecimalValue(s[..|s| - 1]) + ((s[|s| - 1] as int) - 48)
  }

  /** Leading whitespace does not change what `strip()` returns. */
  lemma {:induction false} StripSkipsLeadingSpace(c: char, s: string)
    requires IsSpace(c)
    ensures Strip([c] + s) == Strip(s)
  {
    assert ([c] + s)[1..] == s;
  }

  /** A string that neither starts nor ends with whitespace is its own `strip()`. */
  lemma StripKeeps(s: string)
    requires s != [] && !IsSpace(s[0]) && !IsSpace(s[|s| - 1])
    ensures Strip(s) == s
  {
  }

  lemma {:induction false} DecimalValueAppend(s: string, d: nat)
    requires IsDigits(s) && d < 10
    ensures IsDigits(s + [DigitChar(d)])
    ensures DecimalValue(s + [DigitChar(d)]) == 10 * DecimalValue(s) + d
  {
    var u := s + [DigitChar(d)];
    assert u[..|u| - 1] == s;
  }

  /** Reading back the decimal text of `n` gives `n`. */
  lemma {:induction false} DecimalRoundTrip(n: nat)
    ensures DecimalValue(NatToDecimal(n)) == n
    decreases n
  {
    if n < 10 {
      assert [DigitChar(n)][..0] == [];
    } else {
      DecimalRoundTrip(n / 10);
      DecimalValueAppend(NatToDecimal(n / 10), n % 10);
    }
  }

}

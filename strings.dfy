/** The few Python string operations the application relies on:
    `str.split(sep)`, the stripping of ASCII white space done inside `int()`,
    and `int(token)` for base-10 text. */
module Strings {
  import opened Wrappers

  // ---------------------------------------------------------------------
  // split / join
  // ---------------------------------------------------------------------

  /** Python's `s.split(sep)` for a non-empty separator: `s` is cut at every
      leftmost, non-overlapping occurrence of `sep`; there is always at
      least one part. */
  function Split(s: string, sep: string): (parts: seq<string>)
    requires |sep| > 0
    ensures |parts| >= 1
  {
    SplitFrom(s, sep, [])
  }

  /** `cur` is the part collected so far; `s` is what is left to scan. */
  function SplitFrom(s: string, sep: string, cur: string): (parts: seq<string>)
    requires |sep| > 0
    ensures |parts| >= 1
    decreases |s|
  {
    if s == [] then [cur]
    else if sep <= s then [cur] + SplitFrom(s[|sep|..], sep, [])
    else SplitFrom(s[1..], sep, cur + [s[0]])
  }

  /** `sep.join(parts)`, the inverse of `Split`. */
  function Join(parts: seq<string>, sep: string): string
  {
    if |parts| == 0 then []
    else if |parts| == 1 then parts[0]
    else parts[0] + sep + Join(parts[1..], sep)
  }

  /** `sep` occurs somewhere in `t` (Python's `sep in t`). */
  predicate Contains(t: string, sep: string)
  {
    exists i :: 0 <= i <= |t| && sep <= t[i..]
  }

  lemma {:induction false} JoinSplitFrom(s: string, sep: string, cur: string)
    requires |sep| > 0
    ensures Join(SplitFrom(s, sep, cur), sep) == cur + s
    decreases |s|
  {
    if s == [] {
      assert cur + s == cur;
    } else if sep <= s {
      var tail := s[|sep|..];
      JoinSplitFrom(tail, sep, []);
      JoinAtSeparator(s, sep, cur);
    } else {
      JoinSplitFrom(s[1..], sep, cur + [s[0]]);
      assert cur + [s[0]] + s[1..] == cur + s;
    }
  }

  /** The step of `JoinSplitFrom` where `s` starts with the separator. */
  lemma JoinAtSeparator(s: string, sep: string, cur: string)
    requires |sep| > 0 && sep <= s && s != []
    requires Join(SplitFrom(s[|sep|..], sep, []), sep) == [] + s[|sep|..]
    ensures Join(SplitFrom(s, sep, cur), sep) == cur + s
  {
    var tail := s[|sep|..];
    var rest := SplitFrom(tail, sep, []);
    calc {
      Join(SplitFrom(s, sep, cur), sep);
      Join([cur] + rest, sep);
      { JoinCons(cur, rest, sep); }
      cur + sep + Join(rest, sep);
      { assert [] + tail == tail; }
      cur + sep + tail;
      { assert s == sep + tail; }
      cur + s;
    }
  }

  lemma JoinCons(p: string, rest: seq<string>, sep: string)
    requires |rest| > 0
    ensures Join([p] + rest, sep) == p + sep + Join(rest, sep)
  {
    var parts := [p] + rest;
    assert parts[0] == p && parts[1..] == rest && |parts| > 1;
  }

  /** Joining the parts with the separator gives back the original text. */
  lemma SplitJoin(s: string, sep: string)
    requires |sep| > 0
    ensures Join(Split(s, sep), sep) == s
  {
    JoinSplitFrom(s, sep, []);
  }

  /** Scanning past a stretch with no occurrence of `sep` only moves it into
      the current part. */
  lemma {:induction false} SplitFromSkip(s: string, sep: string, cur: string, i: nat)
    requires |sep| > 0 && i <= |s|
    requires NoMatchBefore(s, sep, i)
    ensures SplitFrom(s, sep, cur) == SplitFrom(s[i..], sep, cur + s[..i])
    decreases i
  {
    if i == 0 {
      assert s[0..] == s && cur + s[..0] == cur;
    } else {
      assert s[0..] == s;
      var t := s[1..];
      forall j | 0 <= j < i - 1
        ensures !(sep <= t[j..])
      {
        assert t[j..] == s[j + 1..];
      }
      SplitFromSkip(t, sep, cur + [s[0]], i - 1);
      assert t[i - 1..] == s[i..];
      assert cur + [s[0]] + t[..i - 1] == cur + s[..i];
    }
  }

  /** `s.split(sep)` cuts at the leftmost occurrence `i` of `sep`: the first
      part is `s[..i]` and the others are the parts of what follows it. */
  lemma SplitLeftmost(s: string, sep: string, i: nat)
    requires |sep| > 0 && i <= |s|
    requires NoMatchBefore(s, sep, i) && sep <= s[i..]
    ensures Split(s, sep) == [s[..i]] + Split(s[i + |sep|..], sep)
  {
    SplitFromSkip(s, sep, [], i);
    assert s[i..][|sep|..] == s[i + |sep|..];
    assert [] + s[..i] == s[..i];
  }

  /** Text without the separator is a single part. */
  lemma SplitNoMatch(s: string, sep: string)
    requires |sep| > 0 && !Contains(s, sep)
    ensures Split(s, sep) == [s]
  {
    SplitFromSkip(s, sep, [], |s|);
    assert [] + s[..|s|] == s;
  }

  /** No occurrence of `sep` in `t` starts before position `n`. */
  predicate NoMatchBefore(t: string, sep: string, n: nat)
    requires n <= |t|
  {
    forall i :: 0 <= i < n ==> !(sep <= t[i..])
  }

  lemma PrefixFree(cur: string, s: string, sep: string)
    requires |sep| > 0
    requires NoMatchBefore(cur + s, sep, |cur|)
    ensures !Contains(cur, sep)
  {
    forall i | 0 <= i <= |cur|
      ensures !(sep <= cur[i..])
    {
      if i < |cur| {
        assert (cur + s)[i..] == cur[i..] + s;
      }
    }
  }

  lemma {:induction false} SplitFromPartsFree(s: string, sep: string, cur: string, k: nat)
    requires |sep| > 0
    requires NoMatchBefore(cur + s, sep, |cur|)
    requires k < |SplitFrom(s, sep, cur)|
    ensures !Contains(SplitFrom(s, sep, cur)[k], sep)
    decreases |s|
  {
    if s == [] {
      PrefixFree(cur, s, sep);
    } else if sep <= s {
      if k == 0 {
        PrefixFree(cur, s, sep);
      } else {
        SplitFromPartsFree(s[|sep|..], sep, [], k - 1);
      }
    } else {
      var cur' := cur + [s[0]];
      assert cur' + s[1..] == cur + s;
      assert (cur + s)[|cur|..] == s;
      SplitFromPartsFree(s[1..], sep, cur', k);
    }
  }

  /** No part of a split contains the separator. */
  lemma SplitPartsFree(s: string, sep: string)
    requires |sep| > 0
    ensures forall k :: 0 <= k < |Split(s, sep)| ==> !Contains(Split(s, sep)[k], sep)
  {
    forall k | 0 <= k < |Split(s, sep)|
      ensures !Contains(Split(s, sep)[k], sep)
    {
      SplitFromPartsFree(s, sep, [], k);
    }
  }

  /** For a one-character separator, "contains" is plain membership. */
  lemma ContainsChar(t: string, c: char)
    ensures Contains(t, [c]) <==> c in t
  {
    if c in t {
      var i :| 0 <= i < |t| && t[i] == c;
      assert [c] <= t[i..];
    }
    if Contains(t, [c]) {
      var i :| 0 <= i <= |t| && [c] <= t[i..];
      assert t[i] == c;
    }
  }

  /** A run free of a one-character separator becomes one part. */
  lemma {:induction false} SplitFromWord(w: string, rest: string, c: char, cur: string)
    requires c !in w
    ensures SplitFrom(w + [c] + rest, [c], cur) == [cur + w] + SplitFrom(rest, [c], [])
    ensures SplitFrom(w, [c], cur) == [cur + w]
  {
    if w == [] {
      assert w + [c] + rest == [c] + rest;
      assert [c] <= [c] + rest;
      assert ([c] + rest)[1..] == rest;
      assert cur + w == cur;
    } else {
      assert (w + [c] + rest)[0] == w[0] && (w + [c] + rest)[1..] == w[1..] + [c] + rest;
      assert w[0] != c;
      SplitFromWord(w[1..], rest, c, cur + [w[0]]);
      assert cur + [w[0]] + w[1..] == cur + w;
    }
  }

  /** Splitting on a one-character separator works piece by piece: the
      parts of `a + [c] + b` are the parts of `a`, then those of `b`. */
  lemma {:induction false} SplitFromAppend(a: string, b: string, c: char, cur: string)
    ensures SplitFrom(a + [c] + b, [c], cur) == SplitFrom(a, [c], cur) + SplitFrom(b, [c], [])
    decreases |a|
  {
    var s := a + [c] + b;
    if a == [] {
      assert s == [c] + b && [c] <= s && s[1..] == b;
    } else {
      assert s[0] == a[0] && s[1..] == a[1..] + [c] + b;
      if a[0] == c {
        assert [c] <= s && [c] <= a;
        SplitFromAppend(a[1..], b, c, []);
      } else {
        assert !([c] <= s) && !([c] <= a);
        SplitFromAppend(a[1..], b, c, cur + [a[0]]);
      }
    }
  }

  /** The first part of a split is the text up to the first separator:
      a prefix that is either everything or followed by the separator. */
  lemma {:induction false} FirstPartIsPrefix(s: string, sep: string, cur: string)
    requires |sep| > 0
    ensures var p := SplitFrom(s, sep, cur)[0];
            && cur <= p
            && p <= cur + s
            && (p == cur + s || sep <= (cur + s)[|p|..])
    decreases |s|
  {
    if s == [] {
    } else if sep <= s {
      assert (cur + s)[|cur|..] == s;
    } else {
      FirstPartIsPrefix(s[1..], sep, cur + [s[0]]);
      assert cur + [s[0]] + s[1..] == cur + s;
    }
  }

  // ---------------------------------------------------------------------
  // int(token)
  // ---------------------------------------------------------------------

  predicate IsDigit(c: char)
  {
    '0' <= c <= '9'
  }

  /** The ASCII characters Python's `int()` skips around a number:
      space, tab, line feed, vertical tab, form feed and carriage return.
      Any other character, the information separators U+001C to U+001F
      included, makes `int()` fail. */
  predicate IsSpace(c: char)
  {
    c == ' ' || ('\t' <= c <= '\r')
  }

  /** Drops leading white space. */
  function StripLeft(s: string): (r: string)
    ensures |r| <= |s| && r == s[|s| - |r|..]
    ensures |r| > 0 ==> !IsSpace(r[0])
    ensures forall i :: 0 <= i < |s| - |r| ==> IsSpace(s[i])
  {
    if |s| > 0 && IsSpace(s[0]) then
      var r := StripLeft(s[1..]);
      assert s[1..][|s| - 1 - |r|..] == s[|s| - |r|..];
      assert forall i :: 1 <= i < |s| - |r| ==> s[i] == s[1..][i - 1];
      r
    else s
  }

  /** Drops trailing white space. */
  function StripRight(s: string): (r: string)
    ensures r <= s
    ensures |r| > 0 ==> !IsSpace(r[|r| - 1])
    ensures forall i :: |r| <= i < |s| ==> IsSpace(s[i])
  {
    if |s| > 0 && IsSpace(s[|s| - 1]) then
      var r := StripRight(s[..|s| - 1]);
      assert forall i :: |r| <= i < |s| - 1 ==> s[i] == s[..|s| - 1][i];
      r
    else s
  }

  /** The stripping `int()` does before it reads its argument: the six
      characters of `IsSpace` are dropped at both ends. */
  function Strip(s: string): string
  {
    StripRight(StripLeft(s))
  }

  /** Digits with single underscores between them, as `int()` accepts:
      `digit ('_'? digit)*`. */
  predicate DigitGroup(d: string)
  {
    && |d| > 0
    && IsDigit(d[0])
    && forall i :: 0 <= i < |d| ==> GroupCharAt(d, i)
  }

  /** Position `i` of a digit group holds a digit, or an underscore
      followed by a digit. */
  predicate GroupCharAt(d: string, i: nat)
    requires i < |d|
  {
    IsDigit(d[i]) || (d[i] == '_' && i + 1 < |d| && IsDigit(d[i + 1]))
  }

  function DigitValue(c: char): nat
    requires IsDigit(c)
  {
    c as int - '0' as int
  }

  /** Base-10 value of the digits of `d`; underscores carry no value. */
  function DigitsValue(d: string): nat
  {
    if d == [] then 0
    else if IsDigit(d[|d| - 1]) then DigitsValue(d[..|d| - 1]) * 10 + DigitValue(d[|d| - 1])
    else DigitsValue(d[..|d| - 1])
  }

  /** Python's `int(t)` for base 10: `None` where Python raises `ValueError`. */
  function ParseInt(t: string): Option<int>
  {
    ParseStripped(Strip(t))
  }

  /** `int()` once the surrounding white space is gone: an optional sign,
      then a digit group. */
  function ParseStripped(u: string): Option<int>
  {
    if |u| > 0 && (u[0] == '+' || u[0] == '-') then
      if DigitGroup(u[1..]) then
        var v: int := DigitsValue(u[1..]);
        Some(if u[0] == '-' then -v else v)
      else None
    else if DigitGroup(u) then Some(DigitsValue(u))
    else None
  }

  /** The characters that can appear in text `int()` accepts. */
  predicate IntChar(c: char)
  {
    IsDigit(c) || IsSpace(c) || c == '_' || c == '+' || c == '-'
  }

  /** Stripping keeps every character that is not white space, in place. */
  lemma StripKeeps(t: string, i: nat)
    requires i < |t| && !IsSpace(t[i])
    ensures var j := i - (|t| - |StripLeft(t)|); 0 <= j < |Strip(t)| && Strip(t)[j] == t[i]
  {
    var l := StripLeft(t);
    var j := i - (|t| - |l|);
    assert 0 <= j < |l| && l[j] == t[i];
  }

  lemma StrippedRefuses(u: string, j: nat)
    requires j < |u| && !IntChar(u[j])
    ensures ParseStripped(u) == None
  {
    if |u| > 0 && (u[0] == '+' || u[0] == '-') {
      var d := u[1..];
      assert 0 <= j - 1 < |d| && d[j - 1] == u[j];
      assert !GroupCharAt(d, j - 1);
    } else {
      assert !GroupCharAt(u, j);
    }
  }

  /** A token holding any other character (a BSSID's ':', a letter, a dot)
      is refused. */
  lemma ParseIntRefuses(t: string, i: nat)
    requires i < |t| && !IntChar(t[i])
    ensures ParseInt(t) == None
  {
    var u := Strip(t);
    var j := i - (|t| - |StripLeft(t)|);
    StripKeeps(t, i);
    assert 0 <= j < |u| && !IntChar(u[j]);
    StrippedRefuses(u, j);
  }

  /** Decimal notation of a number, as Python's `str(n)` writes it. */
  function DecimalString(n: int): (s: string)
  {
    if n < 0 then "-" + NaturalString(-n) else NaturalString(n)
  }

  function NaturalString(n: nat): (s: string)
  {
    if n < 10 then [('0' as int + n) as char]
    else NaturalString(n / 10) + [('0' as int + n % 10) as char]
  }

  lemma {:induction false} NaturalStringParses(n: nat)
    ensures |NaturalString(n)| > 0
    ensures forall i :: 0 <= i < |NaturalString(n)| ==> IsDigit(NaturalString(n)[i])
    ensures DigitsValue(NaturalString(n)) == n
  {
    var s := NaturalString(n);
    if n >= 10 {
      NaturalStringParses(n / 10);
      assert s[..|s| - 1] == NaturalString(n / 10);
    }
  }

  /** Text that neither starts nor ends with white space is left as is. */
  lemma StripPlain(s: string)
    requires |s| > 0 && !IsSpace(s[0]) && !IsSpace(s[|s| - 1])
    ensures Strip(s) == s
  {
    assert StripLeft(s) == s;
    assert StripRight(s) == s;
  }

  lemma AllDigitsGroup(d: string)
    requires |d| > 0 && forall i :: 0 <= i < |d| ==> IsDigit(d[i])
    ensures DigitGroup(d)
  {
    assert forall i :: 0 <= i < |d| ==> GroupCharAt(d, i);
  }

  lemma ParseNatural(m: nat)
    ensures ParseStripped(NaturalString(m)) == Some(m)
  {
    var d := NaturalString(m);
    NaturalStringParses(m);
    AllDigitsGroup(d);
    assert IsDigit(d[0]);
  }

  lemma ParseNegative(m: nat)
    ensures ParseStripped("-" + NaturalString(m)) == Some(-(m as int))
  {
    var d := NaturalString(m);
    NaturalStringParses(m);
    AllDigitsGroup(d);
    var u := "-" + d;
    assert u[0] == '-' && u[1..] == d;
  }

  /** `int(str(n)) == n` for every integer `n`. */
  lemma ParseIntRoundTrip(n: int)
    ensures ParseInt(DecimalString(n)) == Some(n)
  {
    var m: nat := if n < 0 then -n else n;
    DecimalStringEnds(n);
    StripPlain(DecimalString(n));
    if n < 0 {
      ParseNegative(m);
    } else {
      ParseNatural(m);
    }
  }

  /** `str(n)` neither starts nor ends with white space. */
  lemma DecimalStringEnds(n: int)
    ensures var s := DecimalString(n);
      |s| > 0 && !IsSpace(s[0]) && !IsSpace(s[|s| - 1])
  {
    var m: nat := if n < 0 then -n else n;
    var d := NaturalString(m);
    NaturalStringParses(m);
    var s := DecimalString(n);
    if n < 0 {
      assert s == "-" + d;
      assert s[|s| - 1] == d[|d| - 1];
    }
  }

  predicate AllSpace(w: string)
  {
    forall i :: 0 <= i < |w| ==> IsSpace(w[i])
  }

  /** Stripping drops exactly the white space around a text that neither
      starts nor ends with white space. */
  lemma StripPadded(w1: string, s: string, w2: string)
    requires AllSpace(w1) && AllSpace(w2)
    requires |s| > 0 && !IsSpace(s[0]) && !IsSpace(s[|s| - 1])
    ensures Strip(w1 + s + w2) == s
  {
    calc {
      Strip(w1 + s + w2);
      { Assoc(w1, s, w2); }
      StripRight(StripLeft(w1 + (s + w2)));
      { StripLeftPadded(w1, s + w2); }
      StripRight(s + w2);
      { StripRightPadded(s, w2); }
      s;
    }
  }

  lemma StripLeftPadded(w: string, s: string)
    requires AllSpace(w) && |s| > 0 && !IsSpace(s[0])
    ensures StripLeft(w + s) == s
  {
    var t := w + s;
    assert t[|w|] == s[0];
    assert forall i :: 0 <= i < |w| ==> t[i] == w[i];
  }

  lemma StripRightPadded(s: string, w: string)
    requires AllSpace(w) && |s| > 0 && !IsSpace(s[|s| - 1])
    ensures StripRight(s + w) == s
  {
    var t := s + w;
    assert t[|s| - 1] == s[|s| - 1];
    assert forall i :: |s| <= i < |t| ==> t[i] == w[i - |s|];
  }

  /** `int()` reads a number surrounded by any of the six white-space
      characters. */
  lemma ParseIntPadded(w1: string, n: int, w2: string)
    requires AllSpace(w1) && AllSpace(w2)
    ensures ParseInt(w1 + DecimalString(n) + w2) == Some(n)
  {
    var s := DecimalString(n);
    DecimalStringEnds(n);
    ParseIntRoundTrip(n);
    StripPlain(s);
    StripPadded(w1, s, w2);
  }

  /** An information separator (U+001C to U+001F) is not white space to
      `int()`: with one anywhere in its argument, it fails. */
  lemma SeparatorRefused(a: string, c: char, b: string)
    requires '\U{1C}' <= c <= '\U{1F}'
    ensures ParseInt(a + [c] + b) == None
  {
    var t := a + [c] + b;
    assert t[|a|] == c && !IntChar(c);
    ParseIntRefuses(t, |a|);
  }

  /** The sign at the head of stripped text, if there is one. */
  function SignPart(u: string): (s: string)
    ensures s == "" || s == "+" || s == "-"
    ensures s <= u
  {
    if |u| > 0 && u[0] == '+' then "+"
    else if |u| > 0 && u[0] == '-' then "-"
    else ""
  }

  /** Every text of the shape `int()` accepts is read as its signed value:
      white space, an optional sign, a digit group, white space. */
  lemma ParseIntForms(w1: string, sign: string, d: string, w2: string)
    requires AllSpace(w1) && AllSpace(w2)
    requires sign == "" || sign == "+" || sign == "-"
    requires DigitGroup(d)
    ensures ParseInt(w1 + sign + d + w2)
            == Some(if sign == "-" then -(DigitsValue(d) as int) else DigitsValue(d))
  {
    StripSigned(w1, sign, d, w2);
    ParseSigned(sign, d);
  }

  lemma StripSigned(w1: string, sign: string, d: string, w2: string)
    requires AllSpace(w1) && AllSpace(w2)
    requires sign == "" || sign == "+" || sign == "-"
    requires DigitGroup(d)
    ensures Strip(w1 + sign + d + w2) == sign + d
  {
    Regroup(w1, sign, d, w2);
    SignedGroupEnds(sign, d);
    StripPadded(w1, sign + d, w2);
  }

  lemma SignedGroupEnds(sign: string, d: string)
    requires sign == "" || sign == "+" || sign == "-"
    requires DigitGroup(d)
    ensures var u := sign + d; |u| > 0 && !IsSpace(u[0]) && !IsSpace(u[|u| - 1])
  {
    assert GroupCharAt(d, |d| - 1);
    var u := sign + d;
    assert u[|u| - 1] == d[|d| - 1];
    assert u[0] == if sign == "" then d[0] else sign[0];
  }

  lemma ParseSigned(sign: string, d: string)
    requires sign == "" || sign == "+" || sign == "-"
    requires DigitGroup(d)
    ensures ParseStripped(sign + d)
            == Some(if sign == "-" then -(DigitsValue(d) as int) else DigitsValue(d))
  {
    var u := sign + d;
    if sign == "" {
      assert u == d;
    } else {
      assert u[0] == sign[0] && u[1..] == d;
    }
  }

  /** Conversely, every text `int()` accepts has that shape: it splits into
      white space, an optional sign, a digit group and white space, and its
      value is the one `ParseIntForms` gives. */
  lemma ParseIntAccepted(t: string) returns (w1: string, sign: string, d: string, w2: string)
    requires ParseInt(t).Some?
    ensures t == w1 + sign + d + w2
    ensures AllSpace(w1) && AllSpace(w2)
    ensures sign == "" || sign == "+" || sign == "-"
    ensures DigitGroup(d)
    ensures ParseInt(t) == Some(if sign == "-" then -(DigitsValue(d) as int) else DigitsValue(d))
  {
    var u := Strip(t);
    w1, w2 := StripParts(t);
    sign := SignPart(u);
    d := u[|sign|..];
    assert DigitGroup(d) && u == sign + d by { StrippedAccepted(u); }
    assert t == w1 + sign + d + w2 by { Regroup(w1, sign, d, w2); }
    ParseIntForms(w1, sign, d, w2);
  }

  lemma Regroup(w1: string, s: string, d: string, w2: string)
    ensures w1 + (s + d) + w2 == w1 + s + d + w2
  {
  }

  /** `t` is its leading white space, its stripped text and its trailing
      white space. */
  lemma StripParts(t: string) returns (w1: string, w2: string)
    ensures AllSpace(w1) && AllSpace(w2)
    ensures t == w1 + Strip(t) + w2
  {
    var left := StripLeft(t);
    var u := StripRight(left);
    var l := |t| - |left|;
    w1, w2 := t[..l], left[|u|..];
    assert t == w1 + left && AllSpace(w1) by { StripLeftParts(t); }
    assert left == u + w2 && AllSpace(w2) by { StripRightParts(left); }
    assert t == w1 + u + w2 by { Assoc(w1, u, w2); }
  }

  lemma StripLeftParts(t: string)
    ensures var l := |t| - |StripLeft(t)|; AllSpace(t[..l]) && t == t[..l] + StripLeft(t)
  {
    var r := StripLeft(t);
    var l := |t| - |r|;
    var w := t[..l];
    assert r == t[l..];
    assert w + t[l..] == t;
    forall i | 0 <= i < |w|
      ensures IsSpace(w[i])
    {
      assert w[i] == t[i];
    }
  }

  lemma StripRightParts(x: string)
    ensures var r := StripRight(x); AllSpace(x[|r|..]) && x == r + x[|r|..]
  {
    var r := StripRight(x);
    var w := x[|r|..];
    assert r == x[..|r|];
    assert r + w == x;
    forall i | 0 <= i < |w|
      ensures IsSpace(w[i])
    {
      assert w[i] == x[|r| + i];
    }
  }

  lemma Assoc(a: string, b: string, c: string)
    ensures a + (b + c) == a + b + c
  {
  }

  lemma StrippedAccepted(u: string)
    requires ParseStripped(u).Some?
    ensures var s := SignPart(u); DigitGroup(u[|s|..]) && u == s + u[|s|..]
  {
    var s := SignPart(u);
    if |u| > 0 && (u[0] == '+' || u[0] == '-') {
      assert s == u[..1];
    } else {
      assert s == "" && u[0..] == u;
    }
  }

  /** Tokens `int()` accepts beyond `str(n)`: a plus sign, leading zeros,
      underscores between digits. */
  lemma ParseIntAcceptsExamples(t: string, n: int)
    requires (t, n) in [("+5", 5), ("007", 7), ("1_0", 10)]
    ensures ParseInt(t) == Some(n)
  {
    StripPlain(t);
    if t == "+5" {
      assert t[1..] == "5" && DigitGroup("5");
    } else if t == "007" {
      assert GroupCharAt(t, 0) && GroupCharAt(t, 1) && GroupCharAt(t, 2);
      DigitPrefixes(t);
      assert DigitsValue(t[..1]) == 0;
      assert DigitsValue(t[..2]) == 0;
      assert DigitsValue(t) == 7;
    } else {
      assert GroupCharAt(t, 0) && GroupCharAt(t, 1) && GroupCharAt(t, 2);
      DigitPrefixes(t);
      assert DigitsValue(t[..1]) == 1;
      assert DigitsValue(t[..2]) == 1;
      assert DigitsValue(t) == 10;
    }
  }

  lemma DigitPrefixes(t: string)
    requires |t| == 3
    ensures t[..1][..0] == [] && t[..2][..1] == t[..1] && t[..3] == t && t[..2] == t[..|t| - 1]
  {
  }

  /** Tokens made only of characters `int()` allows that it still refuses:
      a misplaced or repeated sign, a sign alone, a doubled or trailing
      underscore. */
  lemma ParseIntRefusesExamples(t: string)
    requires t in ["5-", "--5", "-", "1__0", "1_"]
    ensures ParseInt(t) == None
  {
    StripPlain(t);
    if t == "5-" || t == "1__0" || t == "1_" {
      assert !GroupCharAt(t, 1);
    } else if t == "--5" {
      assert t[1..] == "-5" && !GroupCharAt(t[1..], 0);
    } else {
      assert t[1..] == "";
    }
  }
}

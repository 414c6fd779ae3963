/** Reading the access points out of the text of an `airport -s` scan
    (`get_mac_aps` in app.py). The scan itself is a process call and is
    not modelled: the input is the text `str(scan_out)` produces. */
module WifiScan {
  import opened Wrappers
  import opened Strings

  /** `str(bytes)` writes each newline byte as the two characters `\` and
      `n`, so the scan text is cut on that pair. */
  const LineBreak: string := "\\n"

  datatype AccessPoint = AccessPoint(bssid: string, strength: int)

  /** Why a scan line cannot be read. The Python code raises `IndexError`
      for the first two (no token with a colon, nothing after it) and
      `ValueError` for the third (`int()` refuses the token). */
  datatype ScanError = NoBssid | NoStrength | NotAnInteger(token: string)

  /** The lines strictly between the first piece (the `b'` prefix and the
      header row) and the last piece (the closing quote): `split("\\n")[1:-1]`. */
  function ScanLines(scanText: string): (lines: seq<string>)
    ensures var pieces := Split(scanText, LineBreak);
            && |lines| == (if |pieces| < 2 then 0 else |pieces| - 2)
            && forall i :: 0 <= i < |lines| ==> lines[i] == pieces[i + 1]
  {
    var pieces := Split(scanText, LineBreak);
    if |pieces| < 2 then [] else pieces[1..|pieces| - 1]
  }

  /** No scan line contains a line break. */
  lemma ScanLinesHaveNoBreak(scanText: string)
    ensures forall i :: 0 <= i < |ScanLines(scanText)| ==> !Contains(ScanLines(scanText)[i], LineBreak)
  {
    SplitPartsFree(scanText, LineBreak);
  }

  // ---------------------------------------------------------------------
  // tokens of a line
  // ---------------------------------------------------------------------

  /** `[e for e in parts if e != ""]` */
  function NonEmpty(parts: seq<string>): (r: seq<string>)
    ensures |r| <= |parts|
    ensures forall k :: 0 <= k < |r| ==> r[k] != [] && r[k] in parts
  {
    if parts == [] then []
    else if parts[0] == [] then NonEmpty(parts[1..])
    else [parts[0]] + NonEmpty(parts[1..])
  }

  /** `[e for e in line.split(" ") if e != ""]` */
  function Tokens(line: string): seq<string>
  {
    NonEmpty(Split(line, " "))
  }

  /** Every token is a non-empty run without spaces. */
  lemma TokensAreWords(line: string)
    ensures forall k :: 0 <= k < |Tokens(line)| ==> |Tokens(line)[k]| > 0 && ' ' !in Tokens(line)[k]
  {
    SplitPartsFree(line, " ");
    forall k | 0 <= k < |Tokens(line)|
      ensures ' ' !in Tokens(line)[k]
    {
      ContainsChar(Tokens(line)[k], ' ');
    }
  }

  /** The characters of the parts, one after another. */
  function Concat(parts: seq<string>): string
  {
    if parts == [] then [] else parts[0] + Concat(parts[1..])
  }

  /** `s` with every `c` removed. */
  function Without(s: string, c: char): string
  {
    if s == [] then [] else (if s[0] == c then [] else [s[0]]) + Without(s[1..], c)
  }

  lemma {:induction false} WithoutAppend(a: string, b: string, c: char)
    ensures Without(a + b, c) == Without(a, c) + Without(b, c)
  {
    if a == [] {
      assert a + b == b;
    } else {
      var h := if a[0] == c then [] else [a[0]];
      WithoutAppend(a[1..], b, c);
      assert (a + b)[0] == a[0] && (a + b)[1..] == a[1..] + b;
      assert Without(a + b, c) == h + Without(a[1..] + b, c);
      assert Without(a, c) == h + Without(a[1..], c);
      assert h + (Without(a[1..], c) + Without(b, c)) == (h + Without(a[1..], c)) + Without(b, c);
    }
  }

  lemma {:induction false} WithoutAbsent(a: string, c: char)
    requires c !in a
    ensures Without(a, c) == a
  {
    if a != [] {
      WithoutAbsent(a[1..], c);
    }
  }

  lemma {:induction false} WithoutJoin(parts: seq<string>, c: char)
    requires forall k :: 0 <= k < |parts| ==> c !in parts[k]
    ensures Without(Join(parts, [c]), c) == Concat(parts)
  {
    if |parts| == 1 {
      WithoutAbsent(parts[0], c);
      assert Concat(parts[1..]) == [];
    } else if |parts| > 1 {
      assert c !in parts[0];
      WithoutJoin(parts[1..], c);
      WithoutJoinStep(parts[0], parts[1..], c);
      assert [parts[0]] + parts[1..] == parts;
    }
  }

  /** The step of `WithoutJoin`: one more part in front. */
  lemma WithoutJoinStep(p: string, rest: seq<string>, c: char)
    requires c !in p && |rest| > 0
    requires Without(Join(rest, [c]), c) == Concat(rest)
    ensures Without(Join([p] + rest, [c]), c) == Concat([p] + rest)
  {
    var parts := [p] + rest;
    assert parts[0] == p && parts[1..] == rest;
    var a, b := p + [c], Join(rest, [c]);
    assert Join(parts, [c]) == a + b;
    WithoutAppend(a, b, c);
    WithoutSeparator(p, c);
    assert Concat(parts) == p + Concat(rest);
  }

  lemma WithoutSeparator(p: string, c: char)
    requires c !in p
    ensures Without(p + [c], c) == p
  {
    WithoutAppend(p, [c], c);
    WithoutAbsent(p, c);
    assert Without([c], c) == [];
    assert p + [] == p;
  }

  lemma {:induction false} ConcatNonEmpty(parts: seq<string>)
    ensures Concat(NonEmpty(parts)) == Concat(parts)
  {
    if parts != [] {
      ConcatNonEmpty(parts[1..]);
      assert Concat(parts) == parts[0] + Concat(parts[1..]);
      if parts[0] != [] {
        var r := [parts[0]] + NonEmpty(parts[1..]);
        assert NonEmpty(parts) == r;
        assert r[0] == parts[0] && r[1..] == NonEmpty(parts[1..]);
      } else {
        assert NonEmpty(parts) == NonEmpty(parts[1..]);
        assert parts[0] + Concat(parts[1..]) == Concat(parts[1..]);
      }
    }
  }

  /** The tokens are all the non-space characters of the line, in order:
      splitting on single spaces and dropping empty pieces loses nothing
      but the spaces. */
  lemma TokensCoverLine(line: string)
    ensures Concat(Tokens(line)) == Without(line, ' ')
  {
    var parts := Split(line, " ");
    SplitPartsFree(line, " ");
    forall k | 0 <= k < |parts|
      ensures ' ' !in parts[k]
    {
      ContainsChar(parts[k], ' ');
    }
    SplitJoin(line, " ");
    WithoutJoin(parts, ' ');
    ConcatNonEmpty(parts);
  }

  // ---------------------------------------------------------------------
  // one line
  // ---------------------------------------------------------------------

  /** `[e for e in clean if ":" in e]` */
  function ColonTokens(clean: seq<string>): (r: seq<string>)
    ensures forall k :: 0 <= k < |r| ==> r[k] in clean && ':' in r[k]
  {
    if clean == [] then []
    else if ':' in clean[0] then [clean[0]] + ColonTokens(clean[1..])
    else ColonTokens(clean[1..])
  }

  /** `clean.index(e)`: the first position holding `e`. */
  function IndexOf(clean: seq<string>, e: string): (k: nat)
    requires e in clean
    ensures k < |clean| && clean[k] == e
    ensures forall j :: 0 <= j < k ==> clean[j] != e
  {
    if clean[0] == e then 0 else 1 + IndexOf(clean[1..], e)
  }

  /** Token `k` is the first one that contains a colon. */
  predicate FirstColonAt(toks: seq<string>, k: nat)
  {
    k < |toks| && ':' in toks[k] && forall j :: 0 <= j < k ==> ':' !in toks[j]
  }

  /** One scan line: the BSSID is the first token with a colon and the
      signal strength is the integer written in the token after it. */
  function ParseLine(line: string): Result<AccessPoint, ScanError>
  {
    var clean := Tokens(line);
    var withColon := ColonTokens(clean);
    if |withColon| == 0 then Failure(NoBssid)
    else
      var bssid := withColon[0];
      var k := IndexOf(clean, bssid);
      if k + 1 >= |clean| then Failure(NoStrength)
      else match ParseInt(clean[k + 1])
        case Some(n) => Success(AccessPoint(bssid, n))
        case None => Failure(NotAnInteger(clean[k + 1]))
  }

  lemma {:induction false} ColonTokensEmpty(clean: seq<string>)
    ensures ColonTokens(clean) == [] <==> forall k :: 0 <= k < |clean| ==> ':' !in clean[k]
  {
    if clean != [] {
      ColonTokensEmpty(clean[1..]);
      if ':' !in clean[0] {
        forall k | 1 <= k < |clean|
          ensures clean[k] == clean[1..][k - 1]
        {
        }
      }
    }
  }

  lemma {:induction false} ColonTokensFirst(clean: seq<string>, k: nat)
    requires FirstColonAt(clean, k)
    ensures |ColonTokens(clean)| > 0 && ColonTokens(clean)[0] == clean[k]
  {
    if k > 0 {
      assert FirstColonAt(clean[1..], k - 1);
      ColonTokensFirst(clean[1..], k - 1);
    }
  }

  /** A line fails for want of a BSSID exactly when no token has a colon. */
  lemma ParseLineWithoutBssid(line: string)
    ensures ParseLine(line) == Failure(NoBssid) <==>
            forall k :: 0 <= k < |Tokens(line)| ==> ':' !in Tokens(line)[k]
  {
    ColonTokensEmpty(Tokens(line));
  }

  /** When token `k` is the first with a colon, the line reads as that
      token and the integer after it; with no token after it the line
      fails, and so it does when `int()` refuses that token. */
  lemma ParseLineAt(line: string, k: nat)
    requires FirstColonAt(Tokens(line), k)
    ensures var toks := Tokens(line);
            ParseLine(line) ==
              if k + 1 == |toks| then Failure(NoStrength)
              else if ParseInt(toks[k + 1]).Some? then Success(AccessPoint(toks[k], ParseInt(toks[k + 1]).value))
              else Failure(NotAnInteger(toks[k + 1]))
  {
    var toks := Tokens(line);
    ColonTokensFirst(toks, k);
    assert IndexOf(toks, toks[k]) == k;
  }

  // ---------------------------------------------------------------------
  // the whole scan
  // ---------------------------------------------------------------------

  /** `ys[j]` stands in relation `rel` to `xs[j]`, position by position. */
  predicate Pairwise<T, U>(xs: seq<T>, ys: seq<U>, rel: (T, U) -> bool)
  {
    |xs| == |ys| && forall j :: 0 <= j < |xs| ==> rel(xs[j], ys[j])
  }

  /** One more related pair at the end keeps the prefixes related. */
  lemma PairwiseExtend<T, U>(xs: seq<T>, i: nat, ys: seq<U>, y: U, rel: (T, U) -> bool)
    requires i < |xs| && Pairwise(xs[..i], ys, rel) && rel(xs[i], y)
    ensures Pairwise(xs[..i + 1], ys + [y], rel)
  {
    var pre, next := xs[..i + 1], ys + [y];
    forall j | 0 <= j < |pre|
      ensures rel(pre[j], next[j])
    {
      if j < i {
        assert pre[j] == xs[..i][j] && next[j] == ys[j];
      }
    }
  }

  /** `line` reads as the access point `ap`. */
  predicate LineReads(line: string, ap: AccessPoint)
  {
    ParseLine(line) == Success(ap)
  }

  /** `aps` holds, in order, what each of `lines` reads as. */
  predicate ReadAs(lines: seq<string>, aps: seq<AccessPoint>)
  {
    Pairwise(lines, aps, LineReads)
  }

  /** Every one of `lines` reads as an access point. */
  predicate AllRead(lines: seq<string>)
  {
    forall j :: 0 <= j < |lines| ==> ParseLine(lines[j]).Success?
  }

  lemma ReadAsAll(lines: seq<string>, aps: seq<AccessPoint>)
    requires ReadAs(lines, aps)
    ensures AllRead(lines)
  {
    forall j | 0 <= j < |lines|
      ensures ParseLine(lines[j]).Success?
    {
      assert LineReads(lines[j], aps[j]);
    }
  }

  /** Line `k` is the first that cannot be read, and fails with `e`. */
  predicate StopsAt(lines: seq<string>, k: nat, e: ScanError)
  {
    k < |lines| && AllRead(lines[..k]) && ParseLine(lines[k]) == Failure(e)
  }

  lemma StopsHere(lines: seq<string>, i: nat, aps: seq<AccessPoint>, e: ScanError)
    requires i < |lines| && ReadAs(lines[..i], aps) && ParseLine(lines[i]) == Failure(e)
    ensures StopsAt(lines, i, e)
  {
    ReadAsAll(lines[..i], aps);
  }

  /** `get_mac_aps` after the scan: one access point per scan line, in
      line order; the first line that cannot be read ends the scan with
      its error. */
  method GetMacAps(scanText: string) returns (r: Result<seq<AccessPoint>, ScanError>)
    ensures r.Success? ==> ReadAs(ScanLines(scanText), r.value)
    ensures r.Failure? ==> exists k :: StopsAt(ScanLines(scanText), k, r.error)
  {
    var lines := ScanLines(scanText);
    var aps: seq<AccessPoint> := [];
    for i := 0 to |lines|
      invariant ReadAs(lines[..i], aps)
    {
      var ap := ParseLine(lines[i]);
      if ap.Failure? {
        r := Failure(ap.error);
        StopsHere(lines, i, aps, ap.error);
        return;
      }
      assert LineReads(lines[i], ap.value);
      PairwiseExtend(lines, i, aps, ap.value, LineReads);
      aps := aps + [ap.value];
    }
    assert lines[..|lines|] == lines;
    return Success(aps);
  }

  lemma {:induction false} NonEmptyAppend(x: seq<string>, y: seq<string>)
    ensures NonEmpty(x + y) == NonEmpty(x) + NonEmpty(y)
  {
    if x == [] {
      assert x + y == y;
    } else {
      assert (x + y)[0] == x[0] && (x + y)[1..] == x[1..] + y;
      NonEmptyAppend(x[1..], y);
    }
  }

  /** A space splits the tokens of a line: the tokens of `a + " " + b`
      are those of `a`, then those of `b`. */
  lemma TokensAppend(a: string, b: string)
    ensures Tokens(a + " " + b) == Tokens(a) + Tokens(b)
  {
    SplitFromAppend(a, b, ' ', []);
    NonEmptyAppend(Split(a, " "), Split(b, " "));
  }

  /** A run without spaces is one token, or none when it is empty. With
      `TokensAppend` this fixes every token as a whole maximal run of
      non-space characters. */
  lemma WordTokens(w: string)
    requires ' ' !in w
    ensures Tokens(w) == if w == [] then [] else [w]
  {
    SplitFromWord(w, [], ' ', []);
    assert [] + w == w;
    assert [w][1..] == [];
  }

  lemma {:induction false} ConcatHas(parts: seq<string>, c: char)
    ensures c in Concat(parts) <==> exists k :: 0 <= k < |parts| && c in parts[k]
  {
    if parts != [] {
      ConcatHas(parts[1..], c);
      assert Concat(parts) == parts[0] + Concat(parts[1..]);
      if c in Concat(parts[1..]) {
        var k :| 0 <= k < |parts[1..]| && c in parts[1..][k];
        assert c in parts[k + 1];
      }
      if exists k :: 0 <= k < |parts| && c in parts[k] {
        var k :| 0 <= k < |parts| && c in parts[k];
        if k > 0 {
          assert c in parts[1..][k - 1];
        }
      }
    }
  }

  lemma {:induction false} WithoutHas(s: string, d: char, c: char)
    ensures c in Without(s, d) <==> c in s && c != d
  {
    if s != [] {
      WithoutHas(s[1..], d, c);
      assert s == [s[0]] + s[1..];
    }
  }

  /** A line holds a colon exactly when one of its tokens does. */
  lemma ColonInTokens(line: string)
    ensures ':' in line <==> exists k :: 0 <= k < |Tokens(line)| && ':' in Tokens(line)[k]
  {
    TokensCoverLine(line);
    ConcatHas(Tokens(line), ':');
    WithoutHas(line, ' ', ':');
  }

  lemma {:induction false} FirstColonBefore(toks: seq<string>, j: nat)
    requires j < |toks| && ':' in toks[j]
    ensures exists k: nat :: k <= j && FirstColonAt(toks, k)
    decreases j
  {
    if forall i :: 0 <= i < j ==> ':' !in toks[i] {
      assert FirstColonAt(toks, j);
    } else {
      var i :| 0 <= i < j && ':' in toks[i];
      FirstColonBefore(toks, i);
    }
  }

  /** A text holds a colon exactly when some token is its first token
      with a colon. */
  lemma ColonWord(line: string)
    ensures ':' in line <==> exists k: nat :: FirstColonAt(Tokens(line), k)
  {
    ColonInTokens(line);
    forall k: nat | FirstColonAt(Tokens(line), k)
      ensures ':' in line
    {
      assert 0 <= k < |Tokens(line)| && ':' in Tokens(line)[k];
    }
    if ':' in line {
      var j :| 0 <= j < |Tokens(line)| && ':' in Tokens(line)[j];
      FirstColonBefore(Tokens(line), j);
    }
  }

  /** Decimal text holds neither a space nor a colon. */
  lemma DecimalStringPlain(n: int)
    ensures ' ' !in DecimalString(n) && ':' !in DecimalString(n) && DecimalString(n) != []
  {
    var m: nat := if n < 0 then -n else n;
    NaturalStringParses(m);
    var s := DecimalString(n);
    assert forall i :: 0 <= i < |s| ==> s[i] == '-' || IsDigit(s[i]) by {
      if n < 0 {
        assert forall i :: 1 <= i < |s| ==> s[i] == NaturalString(m)[i - 1];
      }
    }
  }

  /** The tokens of a row `SSID BSSID STRENGTH TAIL`, where the SSID is
      any text, padding and inner spaces included. */
  lemma RowTokens(ssid: string, bssid: string, strength: string, tail: string)
    requires ' ' !in bssid && ' ' !in strength
    requires bssid != [] && strength != []
    ensures Tokens(ssid + " " + bssid + " " + strength + " " + tail)
            == Tokens(ssid) + [bssid, strength] + Tokens(tail)
  {
    var r2 := strength + " " + tail;
    var r1 := bssid + " " + r2;
    assert ssid + " " + bssid + " " + strength + " " + tail == ssid + " " + r1;
    calc {
      Tokens(ssid + " " + r1);
      { TokensAppend(ssid, r1); }
      Tokens(ssid) + Tokens(r1);
      { TokensAppend(bssid, r2); WordTokens(bssid); }
      Tokens(ssid) + ([bssid] + Tokens(r2));
      { TokensAppend(strength, tail); WordTokens(strength); }
      Tokens(ssid) + ([bssid] + ([strength] + Tokens(tail)));
      Tokens(ssid) + [bssid, strength] + Tokens(tail);
    }
  }

  /** A scan row as `airport -s` prints it: the SSID column (right-aligned
      padding, possibly several words, possibly hidden, that is empty, but
      without a colon), the BSSID, the signal strength, then anything. It
      reads as that BSSID and strength. */
  lemma ScanRow(ssid: string, bssid: string, rssi: int, tail: string)
    requires ':' !in ssid
    requires ' ' !in bssid && ':' in bssid
    ensures ParseLine(ssid + " " + bssid + " " + DecimalString(rssi) + " " + tail)
            == Success(AccessPoint(bssid, rssi))
  {
    var strength := DecimalString(rssi);
    DecimalStringPlain(rssi);
    var line := ssid + " " + bssid + " " + strength + " " + tail;
    RowTokens(ssid, bssid, strength, tail);
    ColonInTokens(ssid);
    var ts := Tokens(ssid);
    var toks := Tokens(line);
    var k := |ts|;
    assert toks[k] == bssid && toks[k + 1] == strength;
    assert forall j :: 0 <= j < k ==> toks[j] == ts[j];
    assert FirstColonAt(toks, k);
    ParseLineAt(line, k);
    ParseIntRoundTrip(rssi);
  }

  /** An SSID whose word `k` is its first with a colon: that word is taken
      for the BSSID and the word after it for the strength. When it is the
      SSID's last word, the real BSSID is handed to `int()`, which refuses
      it; otherwise the next SSID word is, and the line either fails on it
      or reads as a wrong access point. */
  lemma ScanRowColonInSsid(ssid: string, k: nat, bssid: string, tail: string)
    requires FirstColonAt(Tokens(ssid), k)
    requires ' ' !in bssid && ':' in bssid
    ensures var ts, line := Tokens(ssid), ssid + " " + bssid + " " + tail;
            && (k + 1 == |ts| ==> ParseLine(line) == Failure(NotAnInteger(bssid)))
            && (k + 1 < |ts| ==>
                  ParseLine(line) ==
                    if ParseInt(ts[k + 1]).Some? then Success(AccessPoint(ts[k], ParseInt(ts[k + 1]).value))
                    else Failure(NotAnInteger(ts[k + 1])))
  {
    var ts := Tokens(ssid);
    var line := ssid + " " + bssid + " " + tail;
    var toks := Tokens(line);
    BssidRowTokens(ssid, bssid, tail);
    assert forall j :: 0 <= j <= k ==> toks[j] == ts[j];
    assert FirstColonAt(toks, k);
    assert toks[k + 1] == if k + 1 < |ts| then ts[k + 1] else bssid;
    var i :| 0 <= i < |bssid| && bssid[i] == ':';
    ParseIntRefuses(bssid, i);
    ParseLineAt(line, k);
  }

  /** The tokens of `SSID BSSID TAIL`, where the SSID is any text. */
  lemma BssidRowTokens(ssid: string, bssid: string, tail: string)
    requires ' ' !in bssid && bssid != []
    ensures Tokens(ssid + " " + bssid + " " + tail) == Tokens(ssid) + [bssid] + Tokens(tail)
  {
    var r1 := bssid + " " + tail;
    assert ssid + " " + bssid + " " + tail == ssid + " " + r1;
    TokensAppend(ssid, r1);
    TokensAppend(bssid, tail);
    WordTokens(bssid);
  }
}

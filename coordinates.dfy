/** src/lib/utils/coordinates.ts: the text layer for GPS coordinates written
    in degrees, minutes and seconds (`50°41'14.388"N 13°58'40.115"E`).
    The regular expression of line 3 is modelled by a structured match
    (`GpsMatch`), its text (`MatchText`) and a deterministic recogniser
    (`MatchGps`) proved to accept exactly the texts of well-formed matches.
    Numbers are exact: seconds are integer thousandths and the decimal
    degrees are `real`. */
module Coordinates {
  import opened Seqs

  // -----------------------------------------------------------------------
  // Character classes.

  /** The JavaScript `\s` class, which is also the set `String.prototype.trim`
      removes: the ASCII controls 9-13, space, and the Unicode space
      separators, line and paragraph separators and the byte-order mark. */
  predicate IsSpace(c: char) {
    var n := c as int;
    || 9 <= n <= 13 || n == 32 || n == 0xA0 || n == 0x1680
    || 0x2000 <= n <= 0x200A || n == 0x2028 || n == 0x2029
    || n == 0x202F || n == 0x205F || n == 0x3000 || n == 0xFEFF
  }

  /** `\d` without the `u` flag: ASCII digits only. */
  predicate IsDigit(c: char) {
    '0' <= c <= '9'
  }

  predicate AllSpace(s: string) {
    forall i :: 0 <= i < |s| ==> IsSpace(s[i])
  }

  predicate AllDigits(s: string) {
    forall i :: 0 <= i < |s| ==> IsDigit(s[i])
  }

  /** Text without whitespace and without commas. */
  predicate Plain(s: string) {
    forall i :: 0 <= i < |s| ==> !IsSpace(s[i]) && s[i] != ','
  }

  /** Every whitespace character is a plain space and is not followed by
      another whitespace character. */
  ghost predicate SingleSpaced(s: string) {
    && (forall i :: 0 <= i < |s| && IsSpace(s[i]) ==> s[i] == ' ')
    && (forall i, j :: 0 <= i < j < |s| && j == i + 1 ==> !IsSpace(s[i]) || !IsSpace(s[j]))
  }

  function LeadingSpaces(s: string): (k: nat)
    ensures k <= |s|
    ensures forall i :: 0 <= i < k ==> IsSpace(s[i])
    ensures k < |s| ==> !IsSpace(s[k])
  {
    if s == [] || !IsSpace(s[0]) then 0 else 1 + LeadingSpaces(s[1..])
  }

  function TrailingSpaces(s: string): (k: nat)
    ensures k <= |s|
    ensures forall i :: |s| - k <= i < |s| ==> IsSpace(s[i])
    ensures k < |s| ==> !IsSpace(s[|s| - k - 1])
  {
    if s == [] || !IsSpace(s[|s| - 1]) then 0 else 1 + TrailingSpaces(s[..|s| - 1])
  }

  function DigitsPrefix(s: string): (k: nat)
    ensures k <= |s|
    ensures forall i :: 0 <= i < k ==> IsDigit(s[i])
    ensures k < |s| ==> !IsDigit(s[k])
  {
    if s == [] || !IsDigit(s[0]) then 0 else 1 + DigitsPrefix(s[1..])
  }

  lemma {:induction false} LeadingSpacesConcat(a: string, b: string)
    ensures LeadingSpaces(a + b) == if LeadingSpaces(a) < |a| then LeadingSpaces(a) else |a| + LeadingSpaces(b)
  {
    if a == [] {
      assert a + b == b;
    } else {
      assert (a + b)[1..] == a[1..] + b;
      LeadingSpacesConcat(a[1..], b);
    }
  }

  lemma {:induction false} DigitsPrefixConcat(a: string, b: string)
    requires AllDigits(a)
    requires b == [] || !IsDigit(b[0])
    ensures DigitsPrefix(a + b) == |a|
  {
    if a == [] {
      assert a + b == b;
    } else {
      assert (a + b)[1..] == a[1..] + b;
      DigitsPrefixConcat(a[1..], b);
    }
  }

  // -----------------------------------------------------------------------
  // The cleaning chain of normalizeGpsCoordinates (coordinates.ts:8-11).

  /** `String.prototype.trim`: the text between the leading and the trailing
      whitespace. */
  function Trim(s: string): (r: string)
    ensures r != [] ==> !IsSpace(r[0]) && !IsSpace(r[|r| - 1])
    ensures exists i, j :: 0 <= i <= j <= |s| && r == s[i..j] && AllSpace(s[..i]) && AllSpace(s[j..])
  {
    var i := LeadingSpaces(s);
    var j := |s| - TrailingSpaces(s[i..]);
    assert s[i..][..j - i] == s[i..j];
    assert AllSpace(s[..i]);
    assert AllSpace(s[j..]) by {
      forall k | 0 <= k < |s| - j ensures IsSpace(s[j..][k]) {
        assert s[j..][k] == s[i..][j - i + k];
      }
    }
    s[i..j]
  }

  /** `s` with its whitespace removed. */
  function NonSpace(s: string): (r: string)
    ensures forall i :: 0 <= i < |r| ==> !IsSpace(r[i])
  {
    if s == [] then []
    else if IsSpace(s[0]) then NonSpace(s[1..])
    else [s[0]] + NonSpace(s[1..])
  }

  /** `s` with its whitespace and its commas removed. */
  function NonSpaceOrComma(s: string): (r: string)
    ensures Plain(r)
  {
    if s == [] then []
    else if IsSpace(s[0]) || s[0] == ',' then NonSpaceOrComma(s[1..])
    else [s[0]] + NonSpaceOrComma(s[1..])
  }

  lemma {:induction false} NonSpaceSkip(s: string, k: nat)
    requires k <= |s|
    requires forall i :: 0 <= i < k ==> IsSpace(s[i])
    ensures NonSpace(s[k..]) == NonSpace(s)
    ensures NonSpaceOrComma(s[k..]) == NonSpaceOrComma(s)
  {
    if k > 0 {
      assert s[1..][k - 1..] == s[k..];
      NonSpaceSkip(s[1..], k - 1);
    }
  }

  lemma StripCons(c: char, x: string)
    ensures NonSpace([c] + x) == if IsSpace(c) then NonSpace(x) else [c] + NonSpace(x)
    ensures NonSpaceOrComma([c] + x) == if IsSpace(c) || c == ',' then NonSpaceOrComma(x) else [c] + NonSpaceOrComma(x)
  {
    assert ([c] + x)[1..] == x;
  }

  lemma NoCommaCons(c: char, x: string)
    requires c != ',' && forall i :: 0 <= i < |x| ==> x[i] != ','
    ensures forall i :: 0 <= i < |[c] + x| ==> ([c] + x)[i] != ','
  {
    forall i | 0 < i < |[c] + x| ensures ([c] + x)[i] != ',' {
      assert ([c] + x)[i] == x[i - 1];
    }
  }

  lemma SingleSpacedCons(c: char, x: string)
    requires SingleSpaced(x)
    requires IsSpace(c) ==> c == ' ' && (x == [] || !IsSpace(x[0]))
    ensures SingleSpaced([c] + x)
  {
    var y := [c] + x;
    forall i | 0 < i < |y| ensures y[i] == x[i - 1] {
    }
  }

  /** The first `replace` of coordinates.ts:10: scanning from the left, each comma together
      with the whitespace right before and after it becomes one space. */
  function ReplaceCommas(s: string): (r: string)
    ensures forall i :: 0 <= i < |r| ==> r[i] != ','
    ensures NonSpaceOrComma(r) == NonSpaceOrComma(s)
    decreases |s|
  {
    var k := LeadingSpaces(s);
    if k < |s| && s[k] == ',' then
      var t := s[k + 1..];
      var k2 := LeadingSpaces(t);
      NonSpaceSkip(s, k);
      assert s[k..] == [','] + t;
      StripCons(',', t);
      NonSpaceSkip(t, k2);
      var rest := ReplaceCommas(t[k2..]);
      StripCons(' ', rest);
      NoCommaCons(' ', rest);
      [' '] + rest
    else if s == [] then []
    else
      assert s[0] != ',';
      var rest := ReplaceCommas(s[1..]);
      assert s == [s[0]] + s[1..];
      StripCons(s[0], s[1..]);
      StripCons(s[0], rest);
      NoCommaCons(s[0], rest);
      [s[0]] + rest
  }

  /** `.replace(/\s+/g, ' ')`: every run of whitespace becomes one space. */
  function Collapse(s: string): (r: string)
    ensures |r| <= |s|
    ensures SingleSpaced(r)
    ensures NonSpace(r) == NonSpace(s)
    ensures NonSpaceOrComma(r) == NonSpaceOrComma(s)
    ensures r != [] <==> s != []
    ensures r != [] ==> (IsSpace(r[0]) <==> IsSpace(s[0]))
    decreases |s|
  {
    if s == [] then []
    else
      assert s == [s[0]] + s[1..];
      StripCons(s[0], s[1..]);
      if IsSpace(s[0]) then
        var k := LeadingSpaces(s);
        NonSpaceSkip(s, k);
        var rest := Collapse(s[k..]);
        StripCons(' ', rest);
        SingleSpacedCons(' ', rest);
        [' '] + rest
      else
        var rest := Collapse(s[1..]);
        StripCons(s[0], rest);
        SingleSpacedCons(s[0], rest);
        [s[0]] + rest
  }

  /** The second replace writes only spaces, so it adds no comma. */
  lemma {:induction false} CollapseNoComma(s: string)
    requires forall i :: 0 <= i < |s| ==> s[i] != ','
    ensures forall i :: 0 <= i < |Collapse(s)| ==> Collapse(s)[i] != ','
    decreases |s|
  {
    if s != [] {
      var k := if IsSpace(s[0]) then LeadingSpaces(s) else 1;
      var u := s[k..];
      assert forall i :: 0 <= i < |u| ==> u[i] == s[k + i];
      CollapseNoComma(u);
      if IsSpace(s[0]) {
        NoCommaCons(' ', Collapse(u));
      } else {
        NoCommaCons(s[0], Collapse(u));
      }
    }
  }

  // The reference reading of the two replaces: whitespace and commas are
  // separators, and every maximal run of separators becomes one space.

  predicate IsSep(c: char) {
    IsSpace(c) || c == ','
  }

  function SepRun(s: string): (k: nat)
    ensures k <= |s|
    ensures forall i :: 0 <= i < k ==> IsSep(s[i])
    ensures k < |s| ==> !IsSep(s[k])
  {
    if s == [] || !IsSep(s[0]) then 0 else 1 + SepRun(s[1..])
  }

  /** Every maximal run of whitespace and commas replaced by one plain space,
      everything else kept in place. */
  function SepRunsToSpace(s: string): string
    decreases |s|
  {
    if s == [] then []
    else if IsSep(s[0]) then [' '] + SepRunsToSpace(s[SepRun(s)..])
    else [s[0]] + SepRunsToSpace(s[1..])
  }

  function DropSpace(r: string): string {
    if r != [] && r[0] == ' ' then r[1..] else r
  }

  lemma SepRunsNonSepCons(c: char, x: string)
    requires !IsSep(c)
    ensures SepRunsToSpace([c] + x) == [c] + SepRunsToSpace(x)
  {
    assert ([c] + x)[1..] == x;
  }

  /** A separator in front joins the run that `x` may start with. */
  lemma SepRunsSepCons(c: char, x: string)
    requires IsSep(c)
    ensures SepRunsToSpace([c] + x) == [' '] + DropSpace(SepRunsToSpace(x))
  {
    var s := [c] + x;
    assert s[1..] == x;
    assert SepRun(s) == 1 + SepRun(x);
    assert s[SepRun(s)..] == x[SepRun(x)..];
    if x != [] && !IsSep(x[0]) {
      assert x[0..] == x;
      assert x[0] != ' ';
    }
  }

  lemma {:induction false} SepRunsSepPrefix(p: string, x: string)
    requires p != [] && forall i :: 0 <= i < |p| ==> IsSep(p[i])
    ensures SepRunsToSpace(p + x) == [' '] + DropSpace(SepRunsToSpace(x))
    decreases |p|
  {
    assert p + x == [p[0]] + (p[1..] + x);
    SepRunsSepCons(p[0], p[1..] + x);
    if |p| > 1 {
      SepRunsSepPrefix(p[1..], x);
      var y := DropSpace(SepRunsToSpace(x));
      assert ([' '] + y)[1..] == y;
    } else {
      assert p[1..] + x == x;
    }
  }

  lemma {:induction false} SepRunsPlainPrefix(a: string, x: string)
    requires Plain(a)
    ensures SepRunsToSpace(a + x) == a + SepRunsToSpace(x)
  {
    if a == [] {
      assert a + x == x;
    } else {
      assert a + x == [a[0]] + (a[1..] + x);
      SepRunsNonSepCons(a[0], a[1..] + x);
      assert Plain(a[1..]) by {
        forall i | 0 <= i < |a[1..]| ensures !IsSpace(a[1..][i]) && a[1..][i] != ',' {
          assert a[1..][i] == a[i + 1];
        }
      }
      SepRunsPlainPrefix(a[1..], x);
    }
  }

  /** The comma branch of the first replace: the comma with the whitespace
      around it is a separator run, replaced by one space. */
  lemma ReplaceCommasAtComma(s: string) returns (j: nat)
    requires LeadingSpaces(s) < |s| && s[LeadingSpaces(s)] == ','
    ensures 0 < j <= |s|
    ensures forall i :: 0 <= i < j ==> IsSep(s[i])
    ensures ReplaceCommas(s) == [' '] + ReplaceCommas(s[j..])
  {
    var k := LeadingSpaces(s);
    var t := s[k + 1..];
    var k2 := LeadingSpaces(t);
    j := k + 1 + k2;
    ReplaceCommasCommaUnfold(s, k, t, k2);
    assert t[k2..] == s[j..];
    CommaRunSep(s, k, t, k2);
  }

  lemma ReplaceCommasCommaUnfold(s: string, k: nat, t: string, k2: nat)
    requires k == LeadingSpaces(s) && k < |s| && s[k] == ','
    requires t == s[k + 1..] && k2 == LeadingSpaces(t)
    ensures ReplaceCommas(s) == [' '] + ReplaceCommas(t[k2..])
  {
  }

  lemma CommaRunSep(s: string, k: nat, t: string, k2: nat)
    requires k < |s| && s[k] == ',' && forall i :: 0 <= i < k ==> IsSpace(s[i])
    requires t == s[k + 1..] && k2 <= |t| && forall i :: 0 <= i < k2 ==> IsSpace(t[i])
    ensures forall i :: 0 <= i < k + 1 + k2 ==> IsSep(s[i])
  {
    forall i | 0 <= i < k + 1 + k2 ensures IsSep(s[i]) {
      if k < i {
        assert s[i] == t[i - k - 1];
      }
    }
  }

  lemma ReplaceCommasElsewhere(s: string)
    requires s != [] && !(LeadingSpaces(s) < |s| && s[LeadingSpaces(s)] == ',')
    ensures s[0] != ','
    ensures ReplaceCommas(s) == [s[0]] + ReplaceCommas(s[1..])
  {
    var k := LeadingSpaces(s);
    if k == 0 {
      assert s[k] != ',';
    } else {
      assert IsSpace(s[0]);
    }
  }

  /** The first replace keeps the meaning under the reference reading: each
      comma with its whitespace becomes one space where it stood. */
  lemma {:induction false} ReplaceCommasRuns(s: string)
    ensures SepRunsToSpace(ReplaceCommas(s)) == SepRunsToSpace(s)
    decreases |s|
  {
    var k := LeadingSpaces(s);
    if k < |s| && s[k] == ',' {
      var j := ReplaceCommasAtComma(s);
      var u := s[j..];
      ReplaceCommasRuns(u);
      assert s == s[..j] + u;
      SepRunsSepPrefix(s[..j], u);
      SepRunsSepCons(' ', ReplaceCommas(u));
    } else if s != [] {
      ReplaceCommasElsewhere(s);
      var x := s[1..];
      ReplaceCommasRuns(x);
      assert s == [s[0]] + x;
      if IsSep(s[0]) {
        SepRunsSepCons(s[0], x);
        SepRunsSepCons(s[0], ReplaceCommas(x));
      } else {
        SepRunsNonSepCons(s[0], x);
        SepRunsNonSepCons(s[0], ReplaceCommas(x));
      }
    }
  }

  lemma CollapseAtSpace(s: string)
    requires s != [] && IsSpace(s[0])
    ensures Collapse(s) == [' '] + Collapse(s[LeadingSpaces(s)..])
  {
  }

  lemma CollapseAtOther(s: string)
    requires s != [] && !IsSpace(s[0])
    ensures Collapse(s) == [s[0]] + Collapse(s[1..])
  {
  }

  /** On text without commas the second replace is the reference reading:
      each maximal whitespace run becomes one space where it stood. */
  lemma {:induction false} CollapseRuns(s: string)
    requires forall i :: 0 <= i < |s| ==> s[i] != ','
    ensures Collapse(s) == SepRunsToSpace(s)
    decreases |s|
  {
    if s != [] {
      var k := if IsSpace(s[0]) then LeadingSpaces(s) else 1;
      var u := s[k..];
      assert forall i :: 0 <= i < |u| ==> u[i] == s[k + i];
      CollapseRuns(u);
      if IsSpace(s[0]) {
        CollapseRunsSpaceStep(s);
      } else {
        CollapseRunsOtherStep(s);
      }
    }
  }

  lemma CollapseRunsSpaceStep(s: string)
    requires s != [] && IsSpace(s[0])
    requires LeadingSpaces(s) < |s| ==> s[LeadingSpaces(s)] != ','
    requires Collapse(s[LeadingSpaces(s)..]) == SepRunsToSpace(s[LeadingSpaces(s)..])
    ensures Collapse(s) == SepRunsToSpace(s)
  {
    CollapseAtSpace(s);
    SepRunsSpaceRun(s);
  }

  /** A whitespace run not followed by a comma is one separator run. */
  lemma SepRunsSpaceRun(s: string)
    requires s != [] && IsSpace(s[0])
    requires LeadingSpaces(s) < |s| ==> s[LeadingSpaces(s)] != ','
    ensures SepRunsToSpace(s) == [' '] + SepRunsToSpace(s[LeadingSpaces(s)..])
  {
    var k := LeadingSpaces(s);
    var u := s[k..];
    SplitAt(s, k);
    SepRunsSepPrefix(s[..k], u);
    if u != [] {
      SplitAt(u, 1);
      SepRunsNonSepCons(u[0], u[1..]);
    }
  }

  lemma CollapseRunsOtherStep(s: string)
    requires s != [] && !IsSpace(s[0]) && s[0] != ','
    requires Collapse(s[1..]) == SepRunsToSpace(s[1..])
    ensures Collapse(s) == SepRunsToSpace(s)
  {
    CollapseAtOther(s);
    assert [s[0]] + s[1..] == s;
    SepRunsNonSepCons(s[0], s[1..]);
  }

  /** The cleaned text the pattern is matched against: no commas, only
      single plain spaces, and the same other characters in the same order
      (`CleanedRuns` says where the spaces stand). */
  function Cleaned(s: string): (r: string)
    ensures forall i :: 0 <= i < |r| ==> r[i] != ','
    ensures SingleSpaced(r)
    ensures NonSpaceOrComma(r) == NonSpaceOrComma(Trim(s))
  {
    CollapseNoComma(ReplaceCommas(Trim(s)));
    Collapse(ReplaceCommas(Trim(s)))
  }

  /** The cleaned text is the trimmed input with every run of whitespace
      and commas turned into one space. */
  lemma CleanedRuns(s: string)
    ensures Cleaned(s) == SepRunsToSpace(Trim(s))
  {
    ReplaceCommasRuns(Trim(s));
    CollapseRuns(ReplaceCommas(Trim(s)));
  }

  // -----------------------------------------------------------------------
  // The pattern of coordinates.ts:3.

  /** The seconds capture: whole seconds and the optional fraction. */
  datatype Seconds = Seconds(whole: string, frac: Option<string>)

  /** One half of a match: degrees, minutes, seconds and the hemisphere
      letter. */
  datatype Angle = Angle(deg: string, min: string, sec: Seconds, hemi: char)

  /** The eight capture groups, with the separator between the halves. */
  datatype GpsMatch = GpsMatch(lat: Angle, sep: string, lon: Angle)

  predicate DigitRun(s: string, lo: nat, hi: nat) {
    lo <= |s| <= hi && AllDigits(s)
  }

  /** The third (or seventh) capture group: `\d{1,2}(?:\.\d{1,3})?`. */
  function SecText(sec: Seconds): string {
    match sec.frac
    case None => sec.whole
    case Some(f) => sec.whole + ("." + f)
  }

  function AngleText(a: Angle): string {
    a.deg + ("°" + MinutesText(a))
  }

  /** The text of a half after its degree sign. */
  function MinutesText(a: Angle): string {
    a.min + ("'" + SecondsText(a))
  }

  /** The text of a half after its minute sign. */
  function SecondsText(a: Angle): string {
    SecText(a.sec) + ("\"" + [a.hemi])
  }

  predicate WellFormedSeconds(sec: Seconds) {
    DigitRun(sec.whole, 1, 2) && (sec.frac.Some? ==> DigitRun(sec.frac.value, 1, 3))
  }

  predicate WellFormedAngle(a: Angle, maxDeg: nat, h1: char, h2: char) {
    && DigitRun(a.deg, 1, maxDeg)
    && DigitRun(a.min, 1, 2)
    && WellFormedSeconds(a.sec)
    && (a.hemi == h1 || a.hemi == h2)
  }

  /** `\s*,?\s*`: whitespace, at most one comma, whitespace. */
  predicate IsSeparator(sep: string) {
    var k := LeadingSpaces(sep);
    k == |sep| || (sep[k] == ',' && AllSpace(sep[k + 1..]))
  }

  predicate WellFormed(m: GpsMatch) {
    && WellFormedAngle(m.lat, 2, 'N', 'S')
    && IsSeparator(m.sep)
    && WellFormedAngle(m.lon, 3, 'E', 'W')
  }

  /** The text a match spans; the pattern is anchored at both ends. */
  function MatchText(m: GpsMatch): string {
    AngleText(m.lat) + (m.sep + AngleText(m.lon))
  }

  /** A scanned field and the text after it. */
  datatype Scan<T> = Scan(value: T, rest: string)

  /** `\d{lo,hi}` followed by something that is not a digit. */
  function ScanDigits(s: string, lo: nat, hi: nat): (r: Option<Scan<string>>)
    ensures r.Some? ==> DigitRun(r.value.value, lo, hi) && s == r.value.value + r.value.rest
  {
    var k := DigitsPrefix(s);
    assert s == s[..k] + s[k..];
    if lo <= k <= hi then Some(Scan(s[..k], s[k..])) else None
  }

  /** One literal character. */
  function ScanChar(s: string, c: char): (r: Option<string>)
    ensures r.Some? ==> s == [c] + r.value
  {
    if s != [] && s[0] == c then Some(s[1..]) else None
  }

  /** The fraction digits after the decimal point, then the closing `"`. */
  function MatchFraction(s: string): (r: Option<Scan<string>>)
    ensures r.Some? ==> DigitRun(r.value.value, 1, 3) && s == r.value.value + ("\"" + r.value.rest)
  {
    match ScanDigits(s, 1, 3)
    case None => None
    case Some(f) =>
      match ScanChar(f.rest, '"')
      case None => None
      case Some(rest) => Some(Scan(f.value, rest))
  }

  lemma FractionText(whole: string, dotRest: string, f: string, q: string)
    requires dotRest != [] && dotRest[0] == '.' && dotRest[1..] == f + q
    ensures whole + dotRest == (whole + ("." + f)) + q
  {
    assert dotRest == "." + (f + q);
  }

  /** Seconds with their optional fraction, then the closing `"`. Whatever it
      accepts is the text of well-formed seconds. */
  function MatchSeconds(s: string): (r: Option<Scan<Seconds>>)
    ensures r.Some? ==> WellFormedSeconds(r.value.value) && s == SecText(r.value.value) + ("\"" + r.value.rest)
  {
    match ScanDigits(s, 1, 2)
    case None => None
    case Some(w) =>
      if w.rest != [] && w.rest[0] == '.' then
        match MatchFraction(w.rest[1..])
        case None => None
        case Some(f) =>
          FractionText(w.value, w.rest, f.value, "\"" + f.rest);
          Some(Scan(Seconds(w.value, Some(f.value)), f.rest))
      else
        match ScanChar(w.rest, '"')
        case None => None
        case Some(rest) => Some(Scan(Seconds(w.value, None), rest))
  }

  lemma SecondsTextThen(a: Angle, rest: string)
    ensures SecondsText(a) + rest == SecText(a.sec) + ("\"" + ([a.hemi] + rest))
  {
  }

  lemma MinutesTextThen(a: Angle, rest: string)
    ensures MinutesText(a) + rest == a.min + ("'" + (SecondsText(a) + rest))
  {
  }

  lemma AngleTextThen(a: Angle, rest: string)
    ensures AngleText(a) + rest == a.deg + ("°" + (MinutesText(a) + rest))
  {
  }

  /** One half of the pattern at the start of `s`, and the text after it.
      Whatever it accepts is the text of a well-formed half. */
  function MatchAngle(s: string, maxDeg: nat, h1: char, h2: char): (r: Option<Scan<Angle>>)
    ensures r.Some? ==> WellFormedAngle(r.value.value, maxDeg, h1, h2) && s == AngleText(r.value.value) + r.value.rest
  {
    match ScanDigits(s, 1, maxDeg)
    case None => None
    case Some(d) =>
      match ScanChar(d.rest, '°')
      case None => None
      case Some(s1) =>
        match MatchAfterDegrees(d.value, s1, h1, h2)
        case None => None
        case Some(r) =>
          AngleTextThen(r.value, r.rest);
          Some(r)
  }

  /** Minutes, the minute sign and the rest of a half. */
  function MatchAfterDegrees(deg: string, s: string, h1: char, h2: char): (r: Option<Scan<Angle>>)
    ensures r.Some? ==>
      && r.value.value.deg == deg
      && DigitRun(r.value.value.min, 1, 2)
      && WellFormedSeconds(r.value.value.sec)
      && (r.value.value.hemi == h1 || r.value.value.hemi == h2)
      && s == MinutesText(r.value.value) + r.value.rest
  {
    match ScanDigits(s, 1, 2)
    case None => None
    case Some(m) =>
      match ScanChar(m.rest, '\'')
      case None => None
      case Some(s2) =>
        match MatchAfterMinutes(deg, m.value, s2, h1, h2)
        case None => None
        case Some(r) =>
          MinutesTextThen(r.value, r.rest);
          Some(r)
  }

  /** Seconds, the second sign and the hemisphere letter. */
  function MatchAfterMinutes(deg: string, min: string, s: string, h1: char, h2: char): (r: Option<Scan<Angle>>)
    ensures r.Some? ==>
      && r.value.value.deg == deg
      && r.value.value.min == min
      && WellFormedSeconds(r.value.value.sec)
      && (r.value.value.hemi == h1 || r.value.value.hemi == h2)
      && s == SecondsText(r.value.value) + r.value.rest
  {
    match MatchSeconds(s)
    case None => None
    case Some(sec) =>
      if sec.rest != [] && (sec.rest[0] == h1 || sec.rest[0] == h2) then
        var a := Angle(deg, min, sec.value, sec.rest[0]);
        assert sec.rest == [a.hemi] + sec.rest[1..];
        SecondsTextThen(a, sec.rest[1..]);
        Some(Scan(a, sec.rest[1..]))
      else None
  }

  /** The length of the separator at the start of `s`. */
  function SeparatorLength(s: string): (k: nat)
    ensures k <= |s|
  {
    var k1 := LeadingSpaces(s);
    if k1 < |s| && s[k1] == ',' then k1 + 1 + LeadingSpaces(s[k1 + 1..]) else k1
  }

  /** `s.match(GPS_REGEX)`. Whatever it accepts is the text of a well-formed
      match, so it accepts only strings the pattern accepts. */
  function MatchGps(s: string): (r: Option<GpsMatch>)
    ensures r.Some? ==> WellFormed(r.value) && MatchText(r.value) == s
  {
    match MatchAngle(s, 2, 'N', 'S')
    case None => None
    case Some(lat) => MatchAfterLatitude(lat.value, lat.rest)
  }

  /** The separator and the longitude half, up to the end of the text. */
  function MatchAfterLatitude(lat: Angle, s: string): (r: Option<GpsMatch>)
    ensures r.Some? ==>
      && r.value.lat == lat
      && IsSeparator(r.value.sep)
      && WellFormedAngle(r.value.lon, 3, 'E', 'W')
      && s == r.value.sep + AngleText(r.value.lon)
  {
    var sep := MatchSeparator(s);
    match MatchAngle(sep.rest, 3, 'E', 'W')
    case None => None
    case Some(lon) =>
      if lon.rest == [] then
        AppendEmpty(AngleText(lon.value));
        Some(GpsMatch(lat, sep.value, lon.value))
      else None
  }

  /** `\s*,?\s*` at the start of `s`, as long as it extends. */
  function MatchSeparator(s: string): (r: Scan<string>)
    ensures IsSeparator(r.value) && s == r.value + r.rest
  {
    var k := SeparatorLength(s);
    SeparatorLengthSound(s);
    SplitAt(s, k);
    Scan(s[..k], s[k..])
  }

  lemma AppendEmpty(s: string)
    ensures s + [] == s
  {
  }

  lemma SplitAt(s: string, k: nat)
    requires k <= |s|
    ensures s == s[..k] + s[k..]
  {
  }

  // Soundness: what the recogniser accepts is the text of a well-formed match.

  lemma {:induction false} LeadingSpacesAll(s: string)
    requires AllSpace(s)
    ensures LeadingSpaces(s) == |s|
  {
    if s != [] {
      LeadingSpacesAll(s[1..]);
    }
  }

  lemma {:induction false} LeadingSpacesPrefix(s: string, k: nat)
    requires LeadingSpaces(s) <= k <= |s|
    ensures LeadingSpaces(s[..k]) == LeadingSpaces(s)
  {
    if s != [] && IsSpace(s[0]) {
      assert s[..k][1..] == s[1..][..k - 1];
      LeadingSpacesPrefix(s[1..], k - 1);
    } else if k > 0 {
      assert s[..k][0] == s[0];
    }
  }

  lemma SeparatorLengthSound(s: string)
    ensures IsSeparator(s[..SeparatorLength(s)])
  {
    var k1 := LeadingSpaces(s);
    var k := SeparatorLength(s);
    var sep := s[..k];
    LeadingSpacesPrefix(s, k);
    if k1 < |s| && s[k1] == ',' {
      var t := s[k1 + 1..];
      assert sep[k1] == ',';
      assert sep[k1 + 1..] == t[..LeadingSpaces(t)];
    }
  }

  // Completeness: the recogniser accepts the text of every well-formed match,
  // and recovers the match from it.

  lemma ScanDigitsComplete(x: string, rest: string, lo: nat, hi: nat)
    requires DigitRun(x, lo, hi)
    requires rest == [] || !IsDigit(rest[0])
    ensures ScanDigits(x + rest, lo, hi) == Some(Scan(x, rest))
  {
    DigitsPrefixConcat(x, rest);
    assert (x + rest)[..|x|] == x;
    assert (x + rest)[|x|..] == rest;
  }

  lemma MatchFractionComplete(x: string, rest: string)
    requires DigitRun(x, 1, 3)
    ensures MatchFraction(x + ("\"" + rest)) == Some(Scan(x, rest))
  {
    ScanDigitsComplete(x, "\"" + rest, 1, 3);
    assert ("\"" + rest)[1..] == rest;
  }

  lemma MatchSecondsComplete(sec: Seconds, rest: string)
    requires WellFormedSeconds(sec)
    ensures MatchSeconds(SecText(sec) + ("\"" + rest)) == Some(Scan(sec, rest))
  {
    match sec.frac
    case None =>
      ScanDigitsComplete(sec.whole, "\"" + rest, 1, 2);
      assert ("\"" + rest)[1..] == rest;
    case Some(x) =>
      var tail := "." + (x + ("\"" + rest));
      assert SecText(sec) + ("\"" + rest) == sec.whole + tail;
      ScanDigitsComplete(sec.whole, tail, 1, 2);
      assert tail[1..] == x + ("\"" + rest);
      MatchFractionComplete(x, rest);
  }

  lemma MatchAfterMinutesComplete(a: Angle, rest: string, h1: char, h2: char)
    requires WellFormedSeconds(a.sec) && (a.hemi == h1 || a.hemi == h2)
    ensures MatchAfterMinutes(a.deg, a.min, SecondsText(a) + rest, h1, h2) == Some(Scan(a, rest))
  {
    SecondsTextThen(a, rest);
    MatchSecondsComplete(a.sec, [a.hemi] + rest);
    assert ([a.hemi] + rest)[1..] == rest;
  }

  lemma MatchAfterDegreesComplete(a: Angle, rest: string, h1: char, h2: char)
    requires DigitRun(a.min, 1, 2) && WellFormedSeconds(a.sec) && (a.hemi == h1 || a.hemi == h2)
    ensures MatchAfterDegrees(a.deg, MinutesText(a) + rest, h1, h2) == Some(Scan(a, rest))
  {
    var s2 := SecondsText(a) + rest;
    MinutesTextThen(a, rest);
    ScanDigitsComplete(a.min, "'" + s2, 1, 2);
    assert ("'" + s2)[1..] == s2;
    MatchAfterMinutesComplete(a, rest, h1, h2);
  }

  lemma MatchAngleComplete(a: Angle, rest: string, maxDeg: nat, h1: char, h2: char)
    requires WellFormedAngle(a, maxDeg, h1, h2)
    ensures MatchAngle(AngleText(a) + rest, maxDeg, h1, h2) == Some(Scan(a, rest))
  {
    var s1 := MinutesText(a) + rest;
    AngleTextThen(a, rest);
    ScanDigitsComplete(a.deg, "°" + s1, 1, maxDeg);
    assert ("°" + s1)[1..] == s1;
    MatchAngleUnfold(AngleText(a) + rest, maxDeg, h1, h2, Scan(a.deg, "°" + s1), s1);
    MatchAfterDegreesComplete(a, rest, h1, h2);
  }

  lemma MatchAngleUnfold(s: string, maxDeg: nat, h1: char, h2: char, d: Scan<string>, s1: string)
    requires ScanDigits(s, 1, maxDeg) == Some(d) && ScanChar(d.rest, '°') == Some(s1)
    ensures MatchAngle(s, maxDeg, h1, h2) == MatchAfterDegrees(d.value, s1, h1, h2)
  {
  }

  lemma SeparatorLengthComplete(sep: string, t: string)
    requires IsSeparator(sep)
    requires t != [] && IsDigit(t[0])
    ensures SeparatorLength(sep + t) == |sep|
  {
    var k := LeadingSpaces(sep);
    var w := sep + t;
    assert !IsSpace(t[0]) && t[0] != ',';
    assert LeadingSpaces(t) == 0;
    LeadingSpacesConcat(sep, t);
    if k < |sep| {
      var u := sep[k + 1..];
      assert w[k] == ',';
      assert w[k + 1..] == u + t;
      LeadingSpacesAll(u);
      LeadingSpacesConcat(u, t);
      SeparatorLengthAtComma(w, k, |u|);
    } else {
      assert w[|sep|] == t[0];
      SeparatorLengthElsewhere(w, k);
    }
  }

  lemma SeparatorLengthAtComma(s: string, k1: nat, k2: nat)
    requires k1 == LeadingSpaces(s) && k1 < |s| && s[k1] == ','
    requires k2 == LeadingSpaces(s[k1 + 1..])
    ensures SeparatorLength(s) == k1 + 1 + k2
  {
  }

  lemma SeparatorLengthElsewhere(s: string, k1: nat)
    requires k1 == LeadingSpaces(s) && !(k1 < |s| && s[k1] == ',')
    ensures SeparatorLength(s) == k1
  {
  }

  /** Every well-formed match is recognised, and recognised as itself: the
      pattern's captures are determined by the text. */
  lemma MatchGpsComplete(m: GpsMatch)
    requires WellFormed(m)
    ensures MatchGps(MatchText(m)) == Some(m)
  {
    var r := m.sep + AngleText(m.lon);
    MatchAngleComplete(m.lat, r, 2, 'N', 'S');
    assert AngleText(m.lon)[0] == m.lon.deg[0];
    SeparatorLengthComplete(m.sep, AngleText(m.lon));
    assert r[..|m.sep|] == m.sep;
    assert r[|m.sep|..] == AngleText(m.lon) + [];
    MatchAngleComplete(m.lon, [], 3, 'E', 'W');
  }

  // -----------------------------------------------------------------------
  // normalizeGpsCoordinates and validateGpsFormat.

  /** The canonical text of a match: the captured fields verbatim, with one
      space between the halves. */
  function Canonical(m: GpsMatch): string {
    MatchText(m.(sep := " "))
  }

  /** `normalizeGpsCoordinates` (coordinates.ts:5-19). Text that does not
      match comes back cleaned: trimmed, with each run of whitespace and
      commas turned into one space. */
  function Normalize(coords: string): (r: string)
    ensures coords != [] && MatchGps(Cleaned(coords)).None? ==> r == SepRunsToSpace(Trim(coords))
  {
    CleanedRuns(coords);
    if coords == [] then []
    else
      var cleaned := Cleaned(coords);
      match MatchGps(cleaned)
      case Some(m) => Canonical(m)
      case None => cleaned
  }

  /** `validateGpsFormat` (coordinates.ts:119-122): the pattern is tested on
      the trimmed value, without the comma and whitespace cleaning. */
  function Validate(value: string): (ok: bool)
    ensures ok && value != [] ==> exists m :: WellFormed(m) && MatchText(m) == Trim(value)
  {
    value == [] || MatchGps(Trim(value)).Some?
  }

  lemma {:induction false} PlainConcat(a: string, b: string)
    requires Plain(a) && Plain(b)
    ensures Plain(a + b)
  {
    forall i | 0 <= i < |a + b| ensures !IsSpace((a + b)[i]) && (a + b)[i] != ',' {
      if i < |a| {
        assert (a + b)[i] == a[i];
      } else {
        assert (a + b)[i] == b[i - |a|];
      }
    }
  }

  lemma AngleTextPlain(a: Angle, maxDeg: nat, h1: char, h2: char)
    requires WellFormedAngle(a, maxDeg, h1, h2)
    requires Plain([h1]) && Plain([h2])
    ensures Plain(AngleText(a))
    ensures AngleText(a) != [] && IsDigit(AngleText(a)[0])
  {
    assert Plain(a.deg) && Plain(a.min) && Plain(a.sec.whole);
    if a.sec.frac.Some? {
      assert Plain(a.sec.frac.value);
      PlainConcat(".", a.sec.frac.value);
      PlainConcat(a.sec.whole, "." + a.sec.frac.value);
    }
    assert Plain([a.hemi]);
    PlainConcat("\"", [a.hemi]);
    PlainConcat(SecText(a.sec), "\"" + [a.hemi]);
    PlainConcat("'", SecText(a.sec) + ("\"" + [a.hemi]));
    PlainConcat(a.min, "'" + (SecText(a.sec) + ("\"" + [a.hemi])));
    PlainConcat("°", a.min + ("'" + (SecText(a.sec) + ("\"" + [a.hemi]))));
    PlainConcat(a.deg, "°" + (a.min + ("'" + (SecText(a.sec) + ("\"" + [a.hemi])))));
  }

  lemma {:induction false} ReplaceCommasNoComma(s: string)
    requires forall i :: 0 <= i < |s| ==> s[i] != ','
    ensures ReplaceCommas(s) == s
  {
    if s != [] {
      ReplaceCommasNoComma(s[1..]);
    }
  }

  lemma {:induction false} CollapseSingleSpaced(s: string)
    requires SingleSpaced(s)
    ensures Collapse(s) == s
  {
    if s != [] {
      assert SingleSpaced(s[1..]) by {
        forall i, j | 0 <= i < j < |s[1..]| && j == i + 1
          ensures !IsSpace(s[1..][i]) || !IsSpace(s[1..][j])
        {
          assert s[1..][i] == s[i + 1] && s[1..][j] == s[j + 1];
        }
      }
      CollapseSingleSpaced(s[1..]);
      if IsSpace(s[0]) && |s| > 1 {
        assert !IsSpace(s[1]);
      }
    }
  }

  /** The canonical text is a fixed point of the cleaning chain. */
  lemma CleanedCanonical(m: GpsMatch)
    requires WellFormed(m)
    ensures Cleaned(Canonical(m)) == Canonical(m)
  {
    var m1 := m.(sep := " ");
    assert WellFormed(m1) by {
      assert LeadingSpaces(" ") == 1;
    }
    CleanedMatchText(m1);
    assert m1.(sep := CleanSep(m1.sep)) == m1;
  }

  /** The canonical text of a well-formed match is left alone by trimming
      and by the cleaning chain. */
  lemma CanonicalIsClean(m: GpsMatch)
    requires WellFormed(m)
    ensures var t := Canonical(m);
      t != [] && Trim(t) == t && Cleaned(t) == t
  {
    CleanedCanonical(m);
    TrimOfCleanedCanonical(m);
    assert |Canonical(m)| >= |AngleText(m.lat)| > 0;
  }

  /** The canonical text matches with the same captures and a single-space
      separator, and normalization leaves it alone. */
  lemma CanonicalIsNormal(m: GpsMatch)
    requires WellFormed(m)
    ensures MatchGps(Canonical(m)) == Some(m.(sep := " "))
    ensures Normalize(Canonical(m)) == Canonical(m)
  {
    var m1 := m.(sep := " ");
    assert WellFormed(m1) by {
      assert LeadingSpaces(" ") == 1;
    }
    MatchGpsComplete(m1);
    var t := Canonical(m);
    assert t == MatchText(m1);
    CanonicalIsClean(m);
    NormalizeOfMatch(t, m1);
    assert Canonical(m1) == t;
  }

  lemma NormalizeOfMatch(t: string, m: GpsMatch)
    requires t != [] && MatchGps(Cleaned(t)) == Some(m)
    ensures Normalize(t) == Canonical(m)
  {
  }

  lemma TrimNoBorder(t: string)
    requires t != [] && !IsSpace(t[0]) && !IsSpace(t[|t| - 1])
    ensures Trim(t) == t
  {
    assert LeadingSpaces(t) == 0;
    assert t[0..] == t;
    assert TrailingSpaces(t) == 0;
  }

  lemma SeparatorAllSep(sep: string)
    requires IsSeparator(sep)
    ensures forall i :: 0 <= i < |sep| ==> IsSep(sep[i])
  {
    var k := LeadingSpaces(sep);
    if k < |sep| {
      forall i | k < i < |sep| ensures IsSep(sep[i]) {
        assert sep[i] == sep[k + 1..][i - k - 1];
      }
    }
  }

  /** The separator of a match after cleaning: nothing stays nothing, and
      any other separator becomes one space. */
  function CleanSep(sep: string): string {
    if sep == [] then [] else " "
  }

  lemma CleanedMatchText(m: GpsMatch)
    requires WellFormed(m)
    ensures Cleaned(MatchText(m)) == MatchText(m.(sep := CleanSep(m.sep)))
  {
    var a, b := AngleText(m.lat), AngleText(m.lon);
    AngleTextPlain(m.lat, 2, 'N', 'S');
    AngleTextPlain(m.lon, 3, 'E', 'W');
    var t := MatchText(m);
    assert t[0] == a[0];
    assert t[|t| - 1] == b[|b| - 1];
    TrimNoBorder(t);
    CleanedRuns(t);
    SepRunsPlainPrefix(a, m.sep + b);
    SepRunsPlainPrefix(b, []);
    assert b + [] == b;
    if m.sep == [] {
      assert m.sep + b == b;
    } else {
      SeparatorAllSep(m.sep);
      SepRunsSepPrefix(m.sep, b);
      assert b[0] != ' ';
    }
  }

  lemma CleanSepWellFormed(m: GpsMatch)
    requires WellFormed(m)
    ensures WellFormed(m.(sep := CleanSep(m.sep)))
  {
    assert LeadingSpaces(" ") == 1;
  }

  /** The text of any well-formed match, with whatever whitespace and comma
      between its halves (`50°41'14.388"N , 13°58'40.115"E`, say),
      normalizes to the canonical text of that match. */
  lemma NormalizeMatchText(m: GpsMatch)
    requires WellFormed(m)
    ensures Normalize(MatchText(m)) == Canonical(m)
  {
    var m1 := m.(sep := CleanSep(m.sep));
    CleanSepWellFormed(m);
    CleanedMatchText(m);
    MatchGpsComplete(m1);
    assert MatchText(m) != [] by {
      assert |AngleText(m.lat)| >= |m.lat.deg| > 0;
    }
    NormalizeOfMatch(MatchText(m), m1);
    assert Canonical(m1) == Canonical(m);
  }

  /** When the cleaned input matches, the output is the canonical text of
      that match, and normalizing it again changes nothing. */
  lemma NormalizeIdempotentOnMatch(coords: string)
    requires MatchGps(Cleaned(coords)).Some?
    ensures var m := MatchGps(Cleaned(coords)).value;
      && Normalize(coords) == Canonical(m)
      && MatchGps(Normalize(coords)) == Some(m.(sep := " "))
      && Normalize(Normalize(coords)) == Normalize(coords)
  {
    var m := MatchGps(Cleaned(coords)).value;
    if coords == [] {
      CleanedEmpty();
      NoMatchWithoutDigit([]);
      assert false;
    }
    NormalizeOfMatch(coords, m);
    CanonicalIsNormal(m);
  }

  lemma CleanedEmpty()
    ensures Cleaned([]) == []
  {
    assert Trim([]) == [];
    assert ReplaceCommas([]) == [];
  }

  /** Whenever normalization produces a match, validation accepts its output. */
  lemma ValidateNormalized(coords: string)
    requires MatchGps(Cleaned(coords)).Some?
    ensures Validate(Normalize(coords))
  {
    var m := MatchGps(Cleaned(coords)).value;
    NormalizeIdempotentOnMatch(coords);
    CanonicalIsNormal(m);
    CanonicalIsClean(m);
  }

  lemma TrimOfCleanedCanonical(m: GpsMatch)
    requires WellFormed(m)
    ensures Trim(Canonical(m)) == Canonical(m)
  {
    var t := Canonical(m);
    AngleTextPlain(m.lat, 2, 'N', 'S');
    AngleTextPlain(m.lon, 3, 'E', 'W');
    var a, b := AngleText(m.lat), AngleText(m.lon);
    assert t == a + (" " + b);
    assert t[0] == a[0];
    assert t[|t| - 1] == b[|b| - 1];
    TrimNoBorder(t);
  }

  /** Validation holds exactly for the empty value and for values whose
      trimmed text is the text of a well-formed match. No numeric range is
      checked: any digits of the allowed lengths are accepted. */
  lemma ValidateIff(value: string)
    ensures Validate(value) <==> value == [] || exists m :: WellFormed(m) && MatchText(m) == Trim(value)
  {
    if exists m :: WellFormed(m) && MatchText(m) == Trim(value) {
      var m :| WellFormed(m) && MatchText(m) == Trim(value);
      MatchGpsComplete(m);
    }
  }

  /** A text whose first character is not a digit does not match. */
  lemma NoMatchWithoutDigit(s: string)
    requires s == [] || !IsDigit(s[0])
    ensures MatchGps(s).None?
  {
    assert DigitsPrefix(s) == 0;
  }

  lemma TrimCommaExample()
    ensures Trim("a,") == "a,"
  {
    assert LeadingSpaces("a,") == 0;
    assert TrailingSpaces("a,") == 0;
    assert "a,"[0..2] == "a,";
  }

  lemma ReplaceCommasExample()
    ensures ReplaceCommas("a,") == "a "
  {
    assert LeadingSpaces("a,") == 0;
    assert "a,"[1..] == ",";
    assert LeadingSpaces(",") == 0;
    assert ","[1..] == [];
    assert LeadingSpaces([]) == 0;
    assert ReplaceCommas([]) == [];
    assert ReplaceCommas(",") == " ";
  }

  lemma CollapseExample()
    ensures Collapse("a ") == "a "
  {
    assert "a "[1..] == " ";
    assert LeadingSpaces(" ") == 1;
    assert " "[1..] == [];
    assert Collapse(" ") == " ";
  }

  lemma CleanedCommaExample()
    ensures Cleaned("a,") == "a "
  {
    TrimCommaExample();
    ReplaceCommasExample();
    CollapseExample();
  }

  lemma CleanedSpaceExample()
    ensures Cleaned("a ") == "a"
  {
    assert Trim("a ") == "a" by {
      assert LeadingSpaces("a ") == 0;
      assert "a "[0..] == "a ";
      assert TrailingSpaces("a ") == 1 by {
        assert "a "[..1] == "a";
      }
      assert "a "[0..1] == "a";
    }
    ReplaceCommasNoComma("a");
    CollapseSingleSpaced("a");
  }

  /** Normalization is not idempotent on text that does not match: `"a,"`
      becomes `"a "`, which becomes `"a"`. */
  lemma NormalizeNotIdempotent()
    ensures Normalize("a,") == "a "
    ensures Normalize("a ") == "a"
    ensures Normalize(Normalize("a,")) != Normalize("a,")
  {
    CleanedCommaExample();
    CleanedSpaceExample();
    NoMatchWithoutDigit("a ");
    NoMatchWithoutDigit("a");
  }

  // -----------------------------------------------------------------------
  // parseCoordinates (coordinates.ts:21-62).

  function DigitsValue(s: string): (v: nat)
    requires AllDigits(s)
    ensures v < Pow10(|s|)
  {
    if s == [] then 0
    else DigitsValue(s[..|s| - 1]) * 10 + (s[|s| - 1] as int - '0' as int)
  }

  function Pow10(n: nat): (p: nat)
    ensures p >= 1
  {
    if n == 0 then 1 else 10 * Pow10(n - 1)
  }

  /** `parseFloat` of the seconds capture, in thousandths of a second. */
  function SecMillis(sec: Seconds): (ms: nat)
    requires AllDigits(sec.whole)
    requires sec.frac.Some? ==> DigitRun(sec.frac.value, 1, 3)
    ensures ms / 1000 == DigitsValue(sec.whole)
  {
    match sec.frac
    case None => DigitsValue(sec.whole) * 1000
    case Some(f) =>
      var frac := DigitsValue(f) * Pow10(3 - |f|);
      assert frac < 1000 by {
        assert Pow10(|f|) * Pow10(3 - |f|) == 1000 by {
          if |f| == 1 { assert Pow10(2) == 100; }
          else if |f| == 2 { assert Pow10(2) == 100; }
          else { assert Pow10(3) == 1000; }
        }
      }
      DigitsValue(sec.whole) * 1000 + frac
  }

  predicate Numeric(a: Angle) {
    AllDigits(a.deg) && AllDigits(a.min) && AllDigits(a.sec.whole)
    && (a.sec.frac.Some? ==> DigitRun(a.sec.frac.value, 1, 3))
  }

  /** `deg + min/60 + sec/3600`, exactly. */
  function Degrees(a: Angle): real
    requires Numeric(a)
  {
    DigitsValue(a.deg) as real + DigitsValue(a.min) as real / 60.0 + SecMillis(a.sec) as real / 3600000.0
  }

  function Abs(x: real): real {
    if x < 0.0 then -x else x
  }

  datatype ParseError = MissingCoordinates | InvalidFormat | OutOfRange

  datatype ParseResult = Ok(latitude: real, longitude: real) | Error(error: ParseError)

  /** The range check of coordinates.ts:44-48 on the integer fields. */
  predicate FieldsInRange(m: GpsMatch)
    requires Numeric(m.lat) && Numeric(m.lon)
  {
    && DigitsValue(m.lat.deg) <= 90 && DigitsValue(m.lon.deg) <= 180
    && DigitsValue(m.lat.min) < 60 && DigitsValue(m.lon.min) < 60
    && SecMillis(m.lat.sec) < 60000 && SecMillis(m.lon.sec) < 60000
  }

  /** `parseCoordinates`; the thrown errors become `Error` values. */
  function Parse(coords: string): (r: ParseResult)
    ensures r.Ok? ==> -90.0 <= r.latitude <= 90.0 && -180.0 <= r.longitude <= 180.0
  {
    if coords == [] then Error(MissingCoordinates)
    else
      match MatchGps(Normalize(coords))
      case None => Error(InvalidFormat)
      case Some(m) => ParseMatch(m)
  }

  /** The checks and the conversion of coordinates.ts:34-61 on the captures. */
  function ParseMatch(m: GpsMatch): (r: ParseResult)
    requires Numeric(m.lat) && Numeric(m.lon)
    ensures r.Ok? ==> -90.0 <= r.latitude <= 90.0 && -180.0 <= r.longitude <= 180.0
    ensures r.Error? ==> r.error == OutOfRange
  {
    if !FieldsInRange(m) then Error(OutOfRange)
    else
      var latitude := if m.lat.hemi == 'S' then -Degrees(m.lat) else Degrees(m.lat);
      var longitude := if m.lon.hemi == 'W' then -Degrees(m.lon) else Degrees(m.lon);
      if Abs(latitude) > 90.0 || Abs(longitude) > 180.0 then Error(OutOfRange)
      else Ok(latitude, longitude)
  }

  /** The magnitude check of coordinates.ts:57-59 in integer terms: with
      minutes and seconds below 60, the magnitude stays within `limit`
      exactly when the degrees are below it, or equal to it with zero
      minutes and seconds. */
  lemma DegreesWithin(a: Angle, limit: nat)
    requires Numeric(a)
    requires DigitsValue(a.deg) <= limit && DigitsValue(a.min) < 60 && SecMillis(a.sec) < 60000
    ensures Degrees(a) <= limit as real <==>
      DigitsValue(a.deg) < limit || (DigitsValue(a.min) == 0 && SecMillis(a.sec) == 0)
  {
    var d, mi, ms := DigitsValue(a.deg), DigitsValue(a.min), SecMillis(a.sec);
    assert mi as real / 60.0 <= 59.0 / 60.0;
    assert ms as real / 3600000.0 < 60000.0 / 3600000.0;
  }

  function Signed(x: real, negative: bool): real {
    if negative then -x else x
  }

  predicate InRange(m: GpsMatch)
    requires Numeric(m.lat) && Numeric(m.lon)
  {
    && FieldsInRange(m)
    && (DigitsValue(m.lat.deg) < 90 || (DigitsValue(m.lat.min) == 0 && SecMillis(m.lat.sec) == 0))
    && (DigitsValue(m.lon.deg) < 180 || (DigitsValue(m.lon.min) == 0 && SecMillis(m.lon.sec) == 0))
  }

  /** The range checks on the captures: success exactly within range, with
      the decimal degrees signed by the hemisphere. */
  lemma ParseMatchOutcome(m: GpsMatch)
    requires Numeric(m.lat) && Numeric(m.lon)
    ensures ParseMatch(m).Ok? <==> InRange(m)
    ensures InRange(m) ==>
      ParseMatch(m) == Ok(Signed(Degrees(m.lat), m.lat.hemi == 'S'), Signed(Degrees(m.lon), m.lon.hemi == 'W'))
  {
    if FieldsInRange(m) {
      DegreesWithin(m.lat, 90);
      DegreesWithin(m.lon, 180);
    }
  }

  /** The outcome of parsing, case by case: empty input, no match after
      normalization, fields out of range (including exactly 90 or 180
      degrees with a non-zero remainder), and otherwise the decimal degrees
      with the sign of the hemisphere. */
  lemma ParseOutcome(coords: string)
    ensures coords == [] ==> Parse(coords) == Error(MissingCoordinates)
    ensures coords != [] && MatchGps(Normalize(coords)).None? ==> Parse(coords) == Error(InvalidFormat)
    ensures coords != [] && MatchGps(Normalize(coords)).Some? ==>
      var m := MatchGps(Normalize(coords)).value;
      && WellFormed(m)
      && (Parse(coords).Ok? <==> InRange(m))
      && (InRange(m) ==>
            Parse(coords) == Ok(Signed(Degrees(m.lat), m.lat.hemi == 'S'), Signed(Degrees(m.lon), m.lon.hemi == 'W')))
      && (!InRange(m) ==> Parse(coords) == Error(OutOfRange))
  {
    if coords != [] && MatchGps(Normalize(coords)).Some? {
      ParseMatchOutcome(MatchGps(Normalize(coords)).value);
    }
  }

  /** Latitude is negative only in the southern hemisphere and longitude
      only in the western one. */
  lemma ParseSign(coords: string)
    requires Parse(coords).Ok?
    ensures var m := MatchGps(Normalize(coords)).value;
      && (Parse(coords).latitude < 0.0 ==> m.lat.hemi == 'S')
      && (Parse(coords).longitude < 0.0 ==> m.lon.hemi == 'W')
      && (m.lat.hemi == 'S' ==> Parse(coords).latitude <= 0.0)
      && (m.lon.hemi == 'W' ==> Parse(coords).longitude <= 0.0)
  {
    ParseOutcome(coords);
  }

  /** Two non-empty inputs with the same normalization parse alike. */
  lemma ParseDependsOnNormalization(c1: string, c2: string)
    requires c1 != [] && c2 != []
    requires Normalize(c1) == Normalize(c2)
    ensures Parse(c1) == Parse(c2)
  {
  }

  /** `90°00'00.001"N` is rejected by the magnitude check although each field
      passes the range check. */
  lemma JustOverNinety()
    ensures var m := GpsMatch(Angle("90", "00", Seconds("00", Some("001")), 'N'), " ", Angle("0", "0", Seconds("0", None), 'E'));
      && FieldsInRange(m)
      && Parse(MatchText(m)) == Error(OutOfRange)
  {
    var m := GpsMatch(Angle("90", "00", Seconds("00", Some("001")), 'N'), " ", Angle("0", "0", Seconds("0", None), 'E'));
    assert LeadingSpaces(" ") == 1;
    assert WellFormed(m);
    assert DigitsValue("90") == 90 by {
      assert "90"[..1] == "9";
      assert "9"[..0] == [];
    }
    assert DigitsValue("00") == 0 by {
      assert "00"[..1] == "0";
      assert "0"[..0] == [];
    }
    assert DigitsValue("001") == 1 by {
      assert "001"[..2] == "00";
      assert "00"[..1] == "0";
      assert "0"[..0] == [];
    }
    assert DigitsValue("0") == 0 by {
      assert "0"[..0] == [];
    }
    assert Canonical(m) == MatchText(m);
    CleanedCanonical(m);
    MatchGpsComplete(m);
    assert MatchText(m) != [];
    assert Normalize(MatchText(m)) == MatchText(m);
    ParseOutcome(MatchText(m));
  }
}

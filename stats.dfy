/** Formatting helpers of the statistics subsystem and the per-thread container
    that registers statistics items and flushes them into the summary once.
    Strings are sequences of characters; `long long` is an unbounded int. */
module Stats {

  // ---------------------------------------------------------------------------
  // Decimal text of an integer (std::to_string and printf's "%d")
  // ---------------------------------------------------------------------------

  predicate IsDigit(c: char) { '0' <= c <= '9' }

  function DigitChar(d: nat): (c: char)
    requires d < 10
    ensures IsDigit(c) && c as int - '0' as int == d
  {
    ('0' as int + d) as char
  }

  /** The decimal digits of n, most significant first, without leading zeros. */
  function NatToString(n: nat): (s: string)
    ensures |s| >= 1
    ensures forall i :: 0 <= i < |s| ==> IsDigit(s[i])
    ensures |s| > 1 ==> s[0] != '0'
    ensures n < 10 <==> |s| == 1
  {
    if n < 10 then [DigitChar(n)] else NatToString(n / 10) + [DigitChar(n % 10)]
  }

  /** The text std::to_string gives a signed integer: a minus sign, then the digits. */
  function IntToString(v: int): (s: string)
  {
    if v < 0 then "-" + NatToString(-v) else NatToString(v)
  }

  /** Reads a string of decimal digits back as a number. */
  function ParseNat(s: string): nat
  {
    if |s| == 0 then 0
    else
      var d := s[|s| - 1] as int - '0' as int;
      ParseNat(s[..|s| - 1]) * 10 + (if 0 <= d < 10 then d else 0)
  }

  /** Reads the text of IntToString back as a signed integer. */
  function ParseInt(s: string): int
  {
    if |s| > 0 && s[0] == '-' then -(ParseNat(s[1..]) as int) else ParseNat(s)
  }

  lemma {:induction false} ParseNatToString(n: nat)
    ensures ParseNat(NatToString(n)) == n
  {
    if n >= 10 {
      var s := NatToString(n);
      assert s[..|s| - 1] == NatToString(n / 10);
      ParseNatToString(n / 10);
    }
  }

  /** The decimal text of an integer determines the integer. */
  lemma IntToStringRoundTrip(v: int)
    ensures ParseInt(IntToString(v)) == v
    ensures IntToString(v)[0] == '-' <==> v < 0
    ensures forall i :: 0 < i < |IntToString(v)| ==> IsDigit(IntToString(v)[i])
  {
    if v < 0 {
      var t := NatToString(-v);
      ParseMinus(t);
      ParseNatToString(-v);
    } else {
      var t := NatToString(v);
      ParseNoMinus(t);
      ParseNatToString(v);
    }
  }

  lemma ParseMinus(t: string)
    ensures ParseInt("-" + t) == -(ParseNat(t) as int)
    ensures ("-" + t)[0] == '-'
    ensures forall i :: 0 < i < |"-" + t| ==> ("-" + t)[i] == t[i - 1]
  {
    assert ("-" + t)[1..] == t;
  }

  lemma ParseNoMinus(t: string)
    requires |t| >= 1 && IsDigit(t[0])
    ensures ParseInt(t) == ParseNat(t)
  {
  }

  // ---------------------------------------------------------------------------
  // StatsInt::ToString: thousands separators
  // ---------------------------------------------------------------------------

  /** Reference definition of digit grouping: a comma before every block of three
      characters counted from the right. */
  function Grouped(s: string): string
    decreases |s|
  {
    if |s| <= 3 then s else Grouped(s[..|s| - 3]) + [','] + s[|s| - 3..]
  }

  /** The characters of s with every comma deleted. */
  function RemoveCommas(s: string): string
  {
    if |s| == 0 then [] else RemoveCommas(s[..|s| - 1]) + (if s[|s| - 1] == ',' then [] else [s[|s| - 1]])
  }

  /** Length of the text with separators for a string of n >= 1 characters. */
  function GroupedLength(n: nat): nat
  {
    if n == 0 then 0 else n + (n - 1) / 3
  }

  /** The character of the grouped text at offset o from its right end: every
      fourth offset (3, 7, 11, ...) is a comma, the others take the characters
      of s from the right. */
  function GroupedCharAt(s: string, o: nat): char
    requires |s| >= 1 && o < GroupedLength(|s|)
  {
    if o % 4 == 3 then ',' else s[|s| - 1 - (o - o / 4)]
  }

  lemma OffsetArithmetic(i: nat)
    ensures (i + i / 3) % 4 != 3
    ensures (i + i / 3) - (i + i / 3) / 4 == i
  {
    var q, r := i / 3, i % 3;
    assert i == 3 * q + r;
    assert i + i / 3 == 4 * q + r;
  }

  /** Positional view of Grouped: its length and every one of its characters. */
  lemma {:induction false} GroupedAt(s: string)
    requires |s| >= 1
    ensures |Grouped(s)| == GroupedLength(|s|)
    ensures forall o :: 0 <= o < |Grouped(s)| ==> Grouped(s)[|Grouped(s)| - 1 - o] == GroupedCharAt(s, o)
    decreases |s|
  {
    var n := |s|;
    if n > 3 {
      var s' := s[..n - 3];
      GroupedAt(s');
      var g, g' := Grouped(s), Grouped(s');
      assert g == g' + [','] + s[n - 3..];
      forall o | 0 <= o < |g|
        ensures g[|g| - 1 - o] == GroupedCharAt(s, o)
      {
        if o >= 4 {
          assert g'[|g'| - 1 - (o - 4)] == GroupedCharAt(s', o - 4);
          GroupedAtHigh(s, s', g, g', o);
        } else {
          GroupedAtLow(s, g, g', o);
        }
      }
    }
  }

  /** An offset of at least 4 from the right lies in the part grouped from the
      shorter string s'. */
  lemma GroupedAtHigh(s: string, s': string, g: string, g': string, o: nat)
    requires |s| > 3 && s' == s[..|s| - 3]
    requires g == g' + [','] + s[|s| - 3..]
    requires |g'| == GroupedLength(|s'|)
    requires 4 <= o < |g|
    requires g'[|g'| - 1 - (o - 4)] == GroupedCharAt(s', o - 4)
    ensures g[|g| - 1 - o] == GroupedCharAt(s, o)
  {
    var o' := o - 4;
    assert g[|g| - 1 - o] == g'[|g'| - 1 - o'];
    assert o % 4 == o' % 4 && o - o / 4 == o' - o' / 4 + 3;
    if o % 4 != 3 {
      assert s'[|s'| - 1 - (o' - o' / 4)] == s[|s| - 1 - (o - o / 4)];
    }
  }

  /** The four rightmost places: the last three characters and a comma. */
  lemma GroupedAtLow(s: string, g: string, g': string, o: nat)
    requires |s| > 3
    requires g == g' + [','] + s[|s| - 3..]
    requires o < 4
    ensures g[|g| - 1 - o] == GroupedCharAt(s, o)
  {
    if o < 3 {
      assert g[|g| - 1 - o] == s[|s| - 3..][2 - o] == s[|s| - 1 - o];
    } else {
      assert g[|g| - 1 - o] == ',';
    }
  }

  /** The grouped text has the separators at exactly every fourth place from the
      right, holds nothing but the characters of s in between, and begins and
      ends with a character of s. */
  lemma GroupedShape(s: string)
    requires |s| >= 1
    requires forall i :: 0 <= i < |s| ==> s[i] != ','
    ensures |Grouped(s)| == |s| + (|s| - 1) / 3
    ensures forall p :: 0 <= p < |Grouped(s)| ==> (Grouped(s)[p] == ',' <==> (|Grouped(s)| - p) % 4 == 0)
    ensures Grouped(s)[0] != ',' && Grouped(s)[|Grouped(s)| - 1] != ','
  {
    GroupedAt(s);
    var g := Grouped(s);
    forall p | 0 <= p < |g|
      ensures g[p] == ',' <==> (|g| - p) % 4 == 0
    {
      var o := |g| - 1 - p;
      assert g[p] == GroupedCharAt(s, o);
      CommaOffset(o);
    }
    OffsetArithmetic(|s| - 1);
    assert g[0] == GroupedCharAt(s, |g| - 1);
  }

  lemma CommaOffset(o: nat)
    ensures (o % 4 == 3) <==> ((o + 1) % 4 == 0)
  {
  }

  lemma {:induction false} RemoveCommasAppend(a: string, b: string)
    ensures RemoveCommas(a + b) == RemoveCommas(a) + RemoveCommas(b)
    decreases |b|
  {
    if |b| == 0 {
      assert a + b == a;
    } else {
      var b' := b[..|b| - 1];
      assert (a + b)[..|a + b| - 1] == a + b';
      assert b[..|b| - 1] == b';
      RemoveCommasAppend(a, b');
    }
  }

  lemma {:induction false} RemoveCommasNone(s: string)
    requires forall i :: 0 <= i < |s| ==> s[i] != ','
    ensures RemoveCommas(s) == s
  {
    if |s| > 0 {
      RemoveCommasNone(s[..|s| - 1]);
    }
  }

  /** Deleting the commas of a comma-joined pair keeps the comma-free right part whole. */
  lemma RemoveCommasJoin(g: string, tail: string)
    requires forall i :: 0 <= i < |tail| ==> tail[i] != ','
    ensures RemoveCommas(g + [','] + tail) == RemoveCommas(g) + tail
  {
    var x := RemoveCommas(g);
    RemoveCommasAppend(g + [','], tail);
    RemoveCommasAppend(g, [',']);
    RemoveCommasComma();
    assert RemoveCommas(g + [',']) == x;
    RemoveCommasNone(tail);
  }

  lemma RemoveCommasComma()
    ensures RemoveCommas([',']) == []
  {
    assert [','][..0] == [];
  }

  /** Deleting the separators gives back the text that was grouped. */
  lemma {:induction false} RemoveCommasGrouped(s: string)
    requires forall i :: 0 <= i < |s| ==> s[i] != ','
    ensures RemoveCommas(Grouped(s)) == s
    decreases |s|
  {
    if |s| <= 3 {
      RemoveCommasNone(s);
    } else {
      var s' := s[..|s| - 3];
      assert forall i :: 0 <= i < |s'| ==> s'[i] == s[i];
      RemoveCommasGrouped(s');
      RemoveCommasGroupedStep(s, s', s[|s| - 3..], Grouped(s'));
    }
  }

  /** One block of RemoveCommasGrouped: the text before the last three
      characters and the last three characters. */
  lemma RemoveCommasGroupedStep(s: string, s': string, tail: string, g: string)
    requires |s| > 3 && s' == s[..|s| - 3] && tail == s[|s| - 3..] && g == Grouped(s')
    requires forall i :: 0 <= i < |tail| ==> tail[i] != ','
    requires RemoveCommas(g) == s'
    ensures RemoveCommas(Grouped(s)) == s
  {
    assert Grouped(s) == g + [','] + tail;
    RemoveCommasJoin(g, tail);
    assert s' + tail == s;
  }

  /** StatsInt::ToString: texts of fewer than five characters come back
      unchanged; longer ones are filled right to left into a buffer of commas,
      skipping one place after every third character. */
  method StatsIntToString(v: int) returns (r: string)
    ensures var s := IntToString(v); |s| < 5 ==> r == s
    ensures var s := IntToString(v); |s| >= 5 ==> r == Grouped(s)
  {
    var s := IntToString(v);
    if |s| < 5 {
      return s;
    }
    r := FillGrouped(s);
  }

  /** The buffer loop of StatsInt::ToString on the text s. */
  method FillGrouped(s: string) returns (r: string)
    requires |s| >= 1
    ensures r == Grouped(s)
  {
    var n := |s|;
    var len := n - 1;
    var ret := new char[len + 1 + len / 3](_ => ',');
    ghost var L := ret.Length;
    assert L == GroupedLength(n);
    assert L == GroupedLength(|s|);
    var i: int, j: int := 0, ret.Length - 1;
    FillStart(ret[..], s);
    while i < n
      invariant FillState(ret[..], s, i, j)
      decreases n - i
    {
      ghost var r0 := ret[..];
      FillAdvance(r0, s, i, j);
      ret[j] := s[len - i];
      assert ret[..] == r0[j := s[|s| - 1 - i]];
      j := j - 1;
      i := i + 1;
      if i % 3 == 0 {
        j := j - 1;
      }
    }
    r := ret[..];
    FillDone(r, s, i, j);
    GroupedFromPositions(s, r);
  }

  /** The loop state of FillGrouped after i characters: j is the next place to
      write, everything right of it is grouped text, everything left of it the
      initial commas. */
  ghost predicate FillState(r: seq<char>, s: string, i: int, j: int)
  {
    0 <= i <= |s| && j == |r| - 1 - (i + i / 3)
    && FilledRight(r, s, j) && CommasLeft(r, j)
  }

  lemma FillStart(r: seq<char>, s: string)
    requires |s| >= 1 && |r| == |s| + (|s| - 1) / 3
    requires forall p :: 0 <= p < |r| ==> r[p] == ','
    ensures FillState(r, s, 0, |r| - 1)
  {
  }

  /** One turn of the loop: write a character, then pass over a comma place
      after every third character. */
  lemma FillAdvance(r: seq<char>, s: string, i: int, j: int)
    requires FillState(r, s, i, j) && i < |s|
    ensures 0 <= j < |r|
    ensures FillState(r[j := s[|s| - 1 - i]], s, i + 1, if (i + 1) % 3 == 0 then j - 1 - 1 else j - 1)
  {
    var r' := r[j := s[|s| - 1 - i]];
    FillDigit(r, s, j, i);
    NextOffset(i);
    if (i + 1) % 3 == 0 {
      if i + 1 < |s| {
        SkipComma(r', s, j - 1, i);
      } else {
        FilledBelow(r', s, j - 1);
      }
    }
  }

  lemma FillDone(r: seq<char>, s: string, i: int, j: int)
    requires FillState(r, s, i, j) && i >= |s|
    ensures |s| >= 1 && |r| == GroupedLength(|s|)
    ensures forall p :: 0 <= p < |r| ==> r[p] == GroupedCharAt(s, |r| - 1 - p)
  {
    OffsetArithmetic(|s| - 1);
    FilledBelow(r, s, j);
  }

  /** The places right of j hold the grouped text; a buffer r of the grouped
      length is being filled from the right. */
  ghost predicate FilledRight(r: seq<char>, s: string, j: int)
  {
    |s| >= 1 && |r| == GroupedLength(|s|)
    && forall p :: 0 <= p < |r| && j < p ==> r[p] == GroupedCharAt(s, |r| - 1 - p)
  }

  /** The places up to j still hold the commas the buffer was created with. */
  ghost predicate CommasLeft(r: seq<char>, j: int)
  {
    forall p :: 0 <= p <= j && p < |r| ==> r[p] == ','
  }

  /** Writing the i-th character of s from the right at place j extends the
      filled part by one place. */
  lemma FillDigit(r: seq<char>, s: string, j: int, i: nat)
    requires i < |s| && FilledRight(r, s, j) && CommasLeft(r, j)
    requires j == |r| - 1 - (i + i / 3)
    ensures 0 <= j < |r|
    ensures FilledRight(r[j := s[|s| - 1 - i]], s, j - 1)
    ensures CommasLeft(r[j := s[|s| - 1 - i]], j - 1)
  {
    DigitPlace(s, i);
  }

  /** Passing over a comma already in the buffer extends the filled part. */
  lemma SkipComma(r: seq<char>, s: string, j: int, i: nat)
    requires i + 1 < |s| && (i + 1) % 3 == 0
    requires FilledRight(r, s, j) && CommasLeft(r, j)
    requires j == |r| - 1 - (i + i / 3 + 1)
    ensures FilledRight(r, s, j - 1) && CommasLeft(r, j - 1)
  {
    CommaPlace(s, i);
  }

  /** Once j is left of the buffer, every place is filled. */
  lemma FilledBelow(r: seq<char>, s: string, j: int)
    requires FilledRight(r, s, j) && j < 0
    ensures FilledRight(r, s, j - 1)
    ensures |s| >= 1 && |r| == GroupedLength(|s|)
    ensures forall p :: 0 <= p < |r| ==> r[p] == GroupedCharAt(s, |r| - 1 - p)
  {
  }

  /** The i-th character of s from the right goes to offset i + i / 3. */
  lemma DigitPlace(s: string, i: nat)
    requires i < |s|
    ensures i + i / 3 < GroupedLength(|s|)
    ensures GroupedCharAt(s, i + i / 3) == s[|s| - 1 - i]
  {
    OffsetArithmetic(i);
    OffsetArithmetic(|s| - 1);
  }

  /** After every third character the next offset is a comma. */
  lemma CommaPlace(s: string, i: nat)
    requires i + 1 < |s| && (i + 1) % 3 == 0
    ensures i + i / 3 + 1 < GroupedLength(|s|)
    ensures GroupedCharAt(s, i + i / 3 + 1) == ','
  {
    NextOffset(i);
    OffsetArithmetic(i + 1);
    OffsetArithmetic(|s| - 1);
  }

  /** A text with the length and the characters GroupedAt describes is Grouped. */
  lemma GroupedFromPositions(s: string, r: string)
    requires |s| >= 1 && |r| == GroupedLength(|s|)
    requires forall p :: 0 <= p < |r| ==> r[p] == GroupedCharAt(s, |r| - 1 - p)
    ensures r == Grouped(s)
  {
    GroupedAt(s);
    SameByPlaces(s, r, Grouped(s));
  }

  /** Two texts that agree with GroupedCharAt at every place are equal. */
  lemma SameByPlaces(s: string, r: string, g: string)
    requires |s| >= 1 && |r| == |g| == GroupedLength(|s|)
    requires forall p :: 0 <= p < |r| ==> r[p] == GroupedCharAt(s, |r| - 1 - p)
    requires forall o :: 0 <= o < |g| ==> g[|g| - 1 - o] == GroupedCharAt(s, o)
    ensures r == g
  {
    forall p | 0 <= p < |r|
      ensures r[p] == g[p]
    {
      assert g[|g| - 1 - (|r| - 1 - p)] == GroupedCharAt(s, |r| - 1 - p);
    }
  }

  lemma NextOffset(i: nat)
    ensures (i + 1) + (i + 1) / 3 == i + i / 3 + (if (i + 1) % 3 == 0 then 2 else 1)
    ensures (i + 1) % 3 == 0 ==> (i + i / 3 + 1) % 4 == 3
  {
  }

  lemma {:induction false} GroupedPrefix(c: char, d: string)
    ensures Grouped([c] + d) == GroupedPrefixText(c, d) + Grouped(d)
    decreases |d|
  {
    if |d| > 3 {
      GroupedPrefix(c, d[..|d| - 3]);
      GroupedPrefixStep(c, d);
    } else {
      GroupedPrefixBase(c, d);
    }
  }

  /** What grouping puts in front of Grouped(d) when one more character c is
      placed before d: c alone, or c and a comma when d fills whole blocks. */
  function GroupedPrefixText(c: char, d: string): string
  {
    if |d| > 0 && |d| % 3 == 0 then [c, ','] else [c]
  }

  lemma GroupedPrefixBase(c: char, d: string)
    requires |d| <= 3
    ensures Grouped([c] + d) == GroupedPrefixText(c, d) + Grouped(d)
  {
    if |d| == 3 {
      GroupedPrefixThree(c, d);
    } else {
      GroupedShort([c] + d);
      GroupedShort(d);
      PrefixTextShort(c, d);
    }
  }

  lemma GroupedPrefixThree(c: char, d: string)
    requires |d| == 3
    ensures Grouped([c] + d) == [c, ','] + d
  {
    var s := [c] + d;
    assert s[..1] == [c];
    assert s[1..] == d;
    GroupedUnfold(s);
    GroupedShort([c]);
    assert [c] + [','] == [c, ','];
  }

  lemma GroupedShort(s: string)
    requires |s| <= 3
    ensures Grouped(s) == s
  {
  }

  lemma PrefixTextShort(c: char, d: string)
    requires |d| < 3
    ensures GroupedPrefixText(c, d) == [c]
  {
  }

  lemma GroupedPrefixStep(c: char, d: string)
    requires |d| > 3
    requires Grouped([c] + d[..|d| - 3]) == GroupedPrefixText(c, d[..|d| - 3]) + Grouped(d[..|d| - 3])
    ensures Grouped([c] + d) == GroupedPrefixText(c, d) + Grouped(d)
  {
    var s := [c] + d;
    var d', tail := d[..|d| - 3], d[|d| - 3..];
    var p := GroupedPrefixText(c, d);
    PrefixTextStep(c, d);
    ConsSlices(c, d, |d| - 3);
    GroupedUnfold(s);
    GroupedUnfold(d);
    var g' := Grouped(d');
    var x := Grouped([c] + d');
    assert x == p + g';
    assert Grouped(s) == x + [','] + tail;
    JoinAssoc(p, g', tail);
  }

  lemma ConsSlices(c: char, d: string, k: nat)
    requires k <= |d|
    ensures ([c] + d)[..k + 1] == [c] + d[..k]
    ensures ([c] + d)[k + 1..] == d[k..]
  {
  }

  lemma GroupedUnfold(s: string)
    requires |s| > 3
    ensures Grouped(s) == Grouped(s[..|s| - 3]) + [','] + s[|s| - 3..]
  {
  }

  lemma PrefixTextStep(c: char, d: string)
    requires |d| > 3
    ensures GroupedPrefixText(c, d[..|d| - 3]) == GroupedPrefixText(c, d)
  {
  }

  lemma JoinAssoc(p: string, g: string, tail: string)
    ensures (p + g) + [','] + tail == p + (g + [','] + tail)
  {
    AppendAssoc(p, g, [',']);
    AppendAssoc(p, g + [','], tail);
  }

  lemma AppendAssoc(x: string, y: string, z: string)
    ensures (x + y) + z == x + (y + z)
  {
  }

  lemma SixDigitText()
    ensures IntToString(-123456) == "-123456"
  {
    assert NatToString(1) == "1";
    assert NatToString(12) == NatToString(1) + "2";
    assert NatToString(123) == NatToString(12) + "3";
    assert NatToString(1234) == NatToString(123) + "4";
    assert NatToString(12345) == NatToString(1234) + "5";
    assert NatToString(123456) == NatToString(12345) + "6";
  }

  /** Counterexample: for -123456 the buffer loop leaves a separator right
      after the minus sign. */
  lemma NegativeSixDigitsAsWritten()
    ensures Grouped(IntToString(-123456)) == "-,123,456"
  {
    SixDigitText();
    var d := "123456";
    GroupedPrefix('-', d);
    assert d[..3] == "123" && d[3..] == "456";
    assert Grouped(d) == Grouped("123") + [','] + "456";
  }

  /** StatsInt::ToString with the sign kept off the digit groups (the
      evidently intended output for negative values). */
  function StatsIntToStringSigned(v: int): (r: string)
    ensures RemoveCommas(r) == IntToString(v)
    ensures v >= 0 && |IntToString(v)| >= 5 ==> r == Grouped(IntToString(v))
    ensures v < 0 && |IntToString(v)| >= 5 ==> r[0] == '-' && r[1] != ','
  {
    var s := IntToString(v);
    IntToStringRoundTrip(v);
    if |s| < 5 then
      RemoveCommasNone(s);
      s
    else if v < 0 then
      var d := s[1..];
      assert s == "-" + d;
      RemoveCommasGrouped(d);
      RemoveCommasAppend("-", Grouped(d));
      assert RemoveCommas("-") == "-";
      GroupedShape(d);
      "-" + Grouped(d)
    else
      RemoveCommasGrouped(s);
      Grouped(s)
  }

  /** For texts of five or more characters, the loop as written and the
      signed variant differ exactly on negative values whose digit count is
      a multiple of three; shorter texts come back unchanged from both. */
  lemma AsWrittenVersusSigned(v: int)
    requires |IntToString(v)| >= 5
    ensures Grouped(IntToString(v)) == StatsIntToStringSigned(v)
            <==> !(v < 0 && (|IntToString(v)| - 1) % 3 == 0)
  {
    var s := IntToString(v);
    if v < 0 {
      var d := s[1..];
      IntToStringRoundTrip(v);
      assert s == "-" + d;
      assert StatsIntToStringSigned(v) == "-" + Grouped(d);
      MinusGrouped(d);
    }
  }

  /** Grouping a minus sign together with the digits d agrees with grouping
      d alone exactly when |d| is not a multiple of three. */
  lemma MinusGrouped(d: string)
    requires |d| >= 1 && forall i :: 0 <= i < |d| ==> d[i] != ','
    ensures Grouped("-" + d) == "-" + Grouped(d) <==> |d| % 3 != 0
  {
    GroupedPrefix('-', d);
    GroupedShape(d);
    if |d| % 3 == 0 {
      assert Grouped("-" + d)[1] == ',';
      assert ("-" + Grouped(d))[1] == Grouped(d)[0];
    }
  }

  // ---------------------------------------------------------------------------
  // StatsElaspedTime::ToString
  // ---------------------------------------------------------------------------

  /** Milliseconds as unit text. The seconds branch formats a float ("%.2f(s)")
      and is the caller-supplied formatSeconds; the source divides through a
      float, modelled here as exact integer division. */
  function ElapsedTimeToString(v: int, formatSeconds: int -> string): (r: string)
    ensures v < 1000 ==> r == IntToString(v) + "(ms)"
    ensures 1000 <= v < 60000 ==> r == formatSeconds(v)
  {
    if v < 1000 then IntToString(v) + "(ms)"
    else if v < 60000 then formatSeconds(v)
    else
      var v := v / 1000;
      if v < 3600 then IntToString(v / 60) + "(m)" + IntToString(v % 60) + "(s)"
      else
        var v := v / 60;
        if v < 1440 then IntToString(v / 60) + "(h)" + IntToString(v % 60) + "(m)"
        else IntToString(v / 1440) + "(d)" + IntToString((v % 1440) / 60) + "(h)" + IntToString(v % 60) + "(m)"
  }

  /** From one minute up to an hour: whole minutes (at least one) and the
      remaining whole seconds. */
  lemma ElapsedTimeMinutes(v: int, formatSeconds: int -> string)
    requires 60000 <= v < 3600000
    ensures exists m, s ::
      && 1 <= m < 60 && 0 <= s < 60 && m * 60 + s == v / 1000
      && ElapsedTimeToString(v, formatSeconds) == IntToString(m) + "(m)" + IntToString(s) + "(s)"
  {
    var w := v / 1000;
    var m, s := w / 60, w % 60;
    assert 1 <= m < 60 && 0 <= s < 60 && m * 60 + s == w;
    assert ElapsedTimeToString(v, formatSeconds) == IntToString(m) + "(m)" + IntToString(s) + "(s)";
  }

  /** From one hour up to a day: whole hours (at least one) and the remaining
      whole minutes. */
  lemma ElapsedTimeHours(v: int, formatSeconds: int -> string)
    requires 3600000 <= v < 86400000
    ensures exists h, m ::
      && 1 <= h < 24 && 0 <= m < 60 && h * 60 + m == v / 60000
      && ElapsedTimeToString(v, formatSeconds) == IntToString(h) + "(h)" + IntToString(m) + "(m)"
  {
    var w := v / 1000 / 60;
    assert w == v / 60000;
    var h, m := w / 60, w % 60;
    assert 1 <= h < 24 && 0 <= m < 60 && h * 60 + m == w;
    assert ElapsedTimeToString(v, formatSeconds) == IntToString(h) + "(h)" + IntToString(m) + "(m)";
  }

  /** From one day on: whole days (at least one), then the remaining whole
      hours and minutes. */
  lemma ElapsedTimeDays(v: int, formatSeconds: int -> string)
    requires 86400000 <= v
    ensures exists d, h, m ::
      && 1 <= d && 0 <= h < 24 && 0 <= m < 60 && d * 1440 + h * 60 + m == v / 60000
      && ElapsedTimeToString(v, formatSeconds) == IntToString(d) + "(d)" + IntToString(h) + "(h)" + IntToString(m) + "(m)"
  {
    var w := v / 1000 / 60;
    assert w == v / 60000;
    var d, h, m := w / 1440, (w % 1440) / 60, w % 60;
    assert (w % 1440) % 60 == w % 60;
    assert 1 <= d && 0 <= h < 24 && 0 <= m < 60 && d * 1440 + h * 60 + m == w;
    assert ElapsedTimeToString(v, formatSeconds) == IntToString(d) + "(d)" + IntToString(h) + "(h)" + IntToString(m) + "(m)";
  }

  // ---------------------------------------------------------------------------
  // StatsRatio::ToString
  // ---------------------------------------------------------------------------

  lemma NoSlash(v: int)
    ensures forall i :: 0 <= i < |IntToString(v)| ==> IntToString(v)[i] != '/'
  {
    IntToStringRoundTrip(v);
  }

  /** Two slash-free texts joined by a slash: the slash is found right after
      the first and the two parts come back unchanged. */
  lemma JoinedBySlash(a: string, b: string)
    requires forall i :: 0 <= i < |a| ==> a[i] != '/'
    requires forall i :: 0 <= i < |b| ==> b[i] != '/'
    ensures var r := a + "/" + b;
      |a| < |r| && r[|a|] == '/' && (forall i :: 0 <= i < |r| && i != |a| ==> r[i] != '/')
      && r[..|a|] == a && r[|a| + 1..] == b
  {
    var r := a + "/" + b;
    assert r[..|a|] == a;
    assert r[|a| + 1..] == b;
    forall i | 0 <= i < |r| && i != |a| ensures r[i] != '/' {
      if i < |a| {
        assert r[i] == a[i];
      } else {
        assert r[i] == b[i - |a| - 1];
      }
    }
  }

  /** "%d/%d" of a ratio; the single slash separates two texts that read back as
      the nominator and the denominator. */
  function RatioToString(nominator: int, denominator: int): (r: string)
    ensures var k := |IntToString(nominator)|;
      k < |r| && r[k] == '/' && (forall i :: 0 <= i < |r| && i != k ==> r[i] != '/')
      && ParseInt(r[..k]) == nominator && ParseInt(r[k + 1..]) == denominator
  {
    var a, b := IntToString(nominator), IntToString(denominator);
    IntToStringRoundTrip(nominator);
    IntToStringRoundTrip(denominator);
    NoSlash(nominator);
    NoSlash(denominator);
    JoinedBySlash(a, b);
    a + "/" + b
  }

  // ---------------------------------------------------------------------------
  // StatsItemContainer
  // ---------------------------------------------------------------------------

  /** A registered statistics item: its update function writes its data into the
      summary (of type S). */
  datatype StatsItemRegister<!S> = StatsItemRegister(func: S -> S)

  /** The summary after flushing the items in order. */
  function FlushAll<S>(items: seq<StatsItemRegister<S>>, summary: S): S
    decreases |items|
  {
    if |items| == 0 then summary else FlushAll(items[1..], items[0].func(summary))
  }

  /** Flushing two batches one after the other is flushing their concatenation. */
  lemma {:induction false} FlushAllAppend<S>(xs: seq<StatsItemRegister<S>>, ys: seq<StatsItemRegister<S>>, summary: S)
    ensures FlushAll(xs + ys, summary) == FlushAll(ys, FlushAll(xs, summary))
    decreases |xs|
  {
    if |xs| == 0 {
      assert xs + ys == ys;
    } else {
      assert (xs + ys)[0] == xs[0];
      assert (xs + ys)[1..] == xs[1..] + ys;
      FlushAllAppend(xs[1..], ys, xs[0].func(summary));
    }
  }

  class StatsItemContainer<S> {
    var container: seq<StatsItemRegister<S>>
    var flushed: bool

    constructor ()
      ensures container == [] && !flushed
    {
      container := [];
      flushed := false;
    }

    method Register(item: StatsItemRegister<S>)
      modifies this
      ensures container == old(container) + [item]
      ensures flushed == old(flushed)
    {
      container := container + [item];
    }

    /** Flushes every registered item, in registration order, into the summary;
        flushing twice is a violated assertion. */
    method FlushData(summary: S) returns (summary': S)
      requires !flushed
      modifies this
      ensures flushed && container == old(container)
      ensures summary' == FlushAll(container, summary)
    {
      summary' := summary;
      for i := 0 to |container|
        invariant FlushAll(container, summary) == FlushAll(container[i..], summary')
      {
        assert container[i..][1..] == container[i + 1..];
        summary' := container[i].func(summary');
      }
      flushed := true;
    }
  }
}

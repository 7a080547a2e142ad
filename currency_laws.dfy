/**
 * What `convertCurrency` (src/components/Input/CurrencyInput.tsx, lines
 * 57-69) promises, proved about the model in module Currency: each scan
 * agrees with its reference definition, and the whole normaliser has a
 * fixed output alphabet, a fixed layout, a sign rule, width insensitivity
 * and a focus/blur round trip.
 */
module CurrencyLaws {
  import opened Currency

  // ---------------------------------------------------------------------
  // Comma removal
  // ---------------------------------------------------------------------

  lemma {:induction false} RemoveCommasAppend(a: string, b: string)
    ensures RemoveCommas(a + b) == RemoveCommas(a) + RemoveCommas(b)
    decreases |a|
  {
    if a != [] {
      assert (a + b)[1..] == a[1..] + b;
      RemoveCommasAppend(a[1..], b);
    } else {
      assert a + b == b;
    }
  }

  lemma {:induction false} RemoveCommasNoComma(s: string)
    requires ',' !in s
    ensures RemoveCommas(s) == s
    decreases |s|
  {
    if s != [] {
      assert s == [s[0]] + s[1..];
      RemoveCommasNoComma(s[1..]);
    }
  }

  // ---------------------------------------------------------------------
  // Step 1: width conversion
  // ---------------------------------------------------------------------

  /** Converting twice is converting once. */
  lemma HalfWidthIdempotent(s: string)
    ensures HalfWidth(HalfWidth(s)) == HalfWidth(s)
  {
  }

  /** Reference inverse of line 62: the full-width form of an ASCII digit or '.', read off the code charts. */
  function ToFullWidth(h: char): char {
    if IsDigit(h) then ('\U{FF10}' as int + (h as int - '0' as int)) as char
    else if h == '.' then '\U{FF0E}'
    else h
  }

  /** Each ASCII digit or '.' comes back from its full-width form, and each full-width form from its ASCII form. */
  lemma WidthRoundTrip(h: char, c: char)
    ensures IsDigit(h) || h == '.' ==> ToHalfWidth(ToFullWidth(h)) == h
    ensures IsFullWidthNumeric(c) ==> ToFullWidth(ToHalfWidth(c)) == c
  {
  }

  /** Writing a number in full-width forms and converting it at line 62 gives the number back. */
  lemma HalfWidthOfFullWidth(t: string)
    requires forall i | 0 <= i < |t| :: IsDigit(t[i]) || t[i] == '.'
    ensures HalfWidth(seq(|t|, i requires 0 <= i < |t| => ToFullWidth(t[i]))) == t
  {
    var w := seq(|t|, i requires 0 <= i < |t| => ToFullWidth(t[i]));
    forall i | 0 <= i < |t| ensures HalfWidth(w)[i] == t[i] {
      WidthRoundTrip(t[i], w[i]);
    }
  }

  // ---------------------------------------------------------------------
  // Step 3: the strip scan and its reference filter
  // ---------------------------------------------------------------------

  lemma {:induction false} KeptInCons(t: string, lo: nat, hi: nat)
    requires lo < hi <= |t|
    ensures KeptIn(t, lo, hi) == (if Kept(t, lo) then [t[lo]] else []) + KeptIn(t, lo + 1, hi)
    decreases hi - lo
  {
    if hi > lo + 1 {
      KeptInCons(t, lo, hi - 1);
    }
  }

  /** Positions in the leading run of dots contribute nothing. */
  lemma {:induction false} KeptInSkipsLeadingDots(t: string, i: nat, d: nat)
    requires i <= d <= |t|
    requires forall j | 0 <= j < d :: t[j] == '.'
    ensures KeptIn(t, i, |t|) == KeptIn(t, d, |t|)
    decreases d - i
  {
    if i < d {
      assert LeadingDot(t, i);
      KeptInCons(t, i, |t|);
      KeptInSkipsLeadingDots(t, i + 1, d);
    }
  }

  /** Positions in the trailing run of dots contribute nothing. */
  lemma {:induction false} KeptInDropsTrailingDots(t: string, i: nat, hi: nat)
    requires i <= hi <= |t|
    requires forall j | i <= j < |t| :: t[j] == '.'
    ensures KeptIn(t, i, hi) == []
    decreases hi - i
  {
    if i < hi {
      assert TrailingDot(t, hi - 1);
      KeptInDropsTrailingDots(t, i, hi - 1);
    }
  }

  /**
   * The regex scan deletes exactly the characters that are not Kept: a
   * character outside [0-9.-], a '-' anywhere but index 0, and a '.' with only
   * dots before it or only dots after it in the string before deletion.
   */
  lemma {:induction false} StripFromMatchesFilter(t: string, i: nat)
    requires i <= |t|
    requires i == 0 || DotRunEnd(t, 0) <= i
    ensures StripFrom(t, i) == KeptIn(t, i, |t|)
    decreases |t| - i
  {
    if i == |t| {
    } else if !IsNumericChar(t[i]) {
      KeptInCons(t, i, |t|);
      StripFromMatchesFilter(t, i + 1);
    } else if i != 0 && t[i] == '-' {
      KeptInCons(t, i, |t|);
      StripFromMatchesFilter(t, i + 1);
    } else if i == 0 && t[i] == '.' {
      var d := DotRunEnd(t, 0);
      KeptInSkipsLeadingDots(t, 0, d);
      StripFromMatchesFilter(t, d);
    } else if t[i] == '.' && DotRunEnd(t, i) == |t| {
      KeptInDropsTrailingDots(t, i, |t|);
    } else {
      if t[i] == '.' {
        var d := DotRunEnd(t, 0);
        assert t[d] != '.';
        assert !LeadingDot(t, i);
        var e := DotRunEnd(t, i);
        assert t[e] != '.';
        assert !TrailingDot(t, i);
      }
      assert Kept(t, i);
      KeptInCons(t, i, |t|);
      StripFromMatchesFilter(t, i + 1);
    }
  }

  lemma StripMatchesFilter(t: string)
    ensures Strip(t) == KeptIn(t, 0, |t|)
  {
    StripFromMatchesFilter(t, 0);
  }

  /** The filter keeps only [0-9.-], and a '-' only when it stood at index 0 of t. */
  lemma {:induction false} KeptInShaped(t: string, lo: nat, hi: nat)
    requires lo <= hi <= |t|
    ensures Shaped(KeptIn(t, lo, hi))
    ensures forall k | 0 <= k < |KeptIn(t, lo, hi)| :: KeptIn(t, lo, hi)[k] == '-' ==> lo == 0 && t[0] == '-'
    decreases hi - lo
  {
    if lo < hi {
      KeptInShaped(t, lo, hi - 1);
      if Kept(t, hi - 1) && t[hi - 1] == '-' {
        assert hi - 1 == 0;
        assert KeptIn(t, lo, hi - 1) == [];
      }
    }
  }

  /** Strip leaves a Shaped string, which starts with '-' exactly when t does. */
  lemma StripShaped(t: string)
    ensures Shaped(Strip(t))
    ensures '-' in Strip(t) <==> |t| > 0 && t[0] == '-'
  {
    StripMatchesFilter(t);
    KeptInShaped(t, 0, |t|);
    if |t| > 0 && t[0] == '-' {
      KeptInCons(t, 0, |t|);
    }
  }

  /**
   * On a string that already looks like a formatted amount and neither starts
   * nor ends with '.', the strip step deletes exactly the commas.
   */
  lemma {:induction false} KeptInTidy(r: string, hi: nat)
    requires hi <= |r|
    requires forall i | 0 <= i < |r| :: IsOutputChar(r[i])
    requires forall i | 0 < i < |r| :: r[i] != '-'
    requires |r| > 0 ==> r[0] != '.' && r[|r| - 1] != '.'
    ensures KeptIn(r, 0, hi) == RemoveCommas(r[..hi])
    decreases hi
  {
    if hi > 0 {
      KeptInTidy(r, hi - 1);
      var c := r[hi - 1];
      if c == '.' {
        assert !LeadingDot(r, hi - 1);
        assert !TrailingDot(r, hi - 1);
      }
      assert Kept(r, hi - 1) <==> c != ',';
      assert r[..hi] == r[..hi - 1] + [c];
      RemoveCommasAppend(r[..hi - 1], [c]);
    }
  }

  lemma StripTidy(r: string)
    requires forall i | 0 <= i < |r| :: IsOutputChar(r[i])
    requires forall i | 0 < i < |r| :: r[i] != '-'
    requires |r| > 0 ==> r[0] != '.' && r[|r| - 1] != '.'
    ensures Strip(r) == RemoveCommas(r)
  {
    StripMatchesFilter(r);
    KeptInTidy(r, |r|);
    assert r[..|r|] == r;
  }

  // ---------------------------------------------------------------------
  // Step 5: the grouping scan and its reference
  // ---------------------------------------------------------------------

  /** On a run of digits the regex scan inserts exactly the reference commas. */
  lemma {:induction false} GroupFromDigits(p: string, i: nat)
    requires i <= |p|
    requires forall k | i <= k < |p| :: IsDigit(p[k])
    ensures GroupFrom(p, i) == GroupDigits(p[i..])
    decreases |p| - i
  {
    if i < |p| {
      var n := DigitRun(p, i + 1);
      assert n == |p| - i - 1;
      GroupFromDigits(p, i + 1);
      assert p[i..][1..] == p[i + 1..];
    }
  }

  /**
   * The comma layout promised by line 66: a comma sits at every fourth
   * position counted from the right and never at index 0, and every other
   * character is a digit, so every group after the first has exactly three
   * digits. The predicate alone allows a first group of any length; the
   * length clause of GroupDigitsWellGrouped limits it to one to three digits.
   */
  predicate WellGrouped(g: string) {
    && (forall i | 0 <= i < |g| :: g[i] == ',' <==> 0 < i && (|g| - i) % 4 == 0)
    && (forall i | 0 <= i < |g| :: g[i] != ',' ==> IsDigit(g[i]))
  }

  /** A well-grouped string stays well-grouped when a digit, and a comma when its length calls for one, go in front. */
  lemma WellGroupedCons(x: char, c: string, g: string)
    requires IsDigit(x) && WellGrouped(g)
    requires g != [] ==> |g| % 4 != 0
    requires c == if |g| % 4 == 3 then [','] else []
    ensures WellGrouped([x] + c + g)
  {
    var r := [x] + c + g;
    forall i | 0 <= i < |r|
      ensures r[i] == ',' <==> 0 < i && (|r| - i) % 4 == 0
      ensures r[i] != ',' ==> IsDigit(r[i])
    {
      if i > |c| {
        assert r[i] == g[i - 1 - |c|];
      }
    }
  }

  /** The length arithmetic of one grouping step: m digits give m + (m - 1) / 3 characters. */
  lemma GroupLengthStep(m: nat)
    requires m > 0
    ensures (m + (m - 1) / 3) % 4 != 0
    ensures (m + (m - 1) / 3) % 4 == 3 <==> m % 3 == 0
    ensures 1 + (if m % 3 == 0 then 1 else 0) + m + (m - 1) / 3 == (m + 1) + m / 3
  {
    var k := (m - 1) / 3;
    assert m == 3 * k + (m - 1) % 3 + 1;
  }

  lemma {:induction false} GroupDigitsWellGrouped(d: string)
    requires |d| > 0 && AllDigits(d)
    ensures |GroupDigits(d)| == |d| + (|d| - 1) / 3
    ensures WellGrouped(GroupDigits(d))
    ensures GroupDigits(d)[0] == d[0] && GroupDigits(d)[|GroupDigits(d)| - 1] == d[|d| - 1]
    decreases |d|
  {
    var rest := d[1..];
    var c: string := if |d| > 1 && (|d| - 1) % 3 == 0 then [','] else [];
    var g := GroupDigits(rest);
    assert GroupDigits(d) == [d[0]] + c + g;
    if rest == [] {
      assert g == [];
    } else {
      GroupDigitsWellGrouped(rest);
      GroupLengthStep(|rest|);
      WellGroupedCons(d[0], c, g);
    }
  }

  /** Removing the commas of a grouping gives the digits back. */
  lemma {:induction false} GroupDigitsRemoveCommas(d: string)
    requires AllDigits(d)
    ensures RemoveCommas(GroupDigits(d)) == d
    decreases |d|
  {
    if d != [] {
      var c: string := if |d| > 1 && (|d| - 1) % 3 == 0 then [','] else [];
      var g := GroupDigits(d[1..]);
      GroupDigitsRemoveCommas(d[1..]);
      var x := [d[0]] + c + g;
      assert x[1..] == c + g;
      if c != [] {
        assert (c + g)[1..] == g;
      } else {
        assert c + g == g;
      }
      assert d == [d[0]] + d[1..];
    }
  }

  /** Up to three digits get no comma. */
  lemma {:induction false} GroupDigitsShort(d: string)
    requires |d| <= 3
    ensures GroupDigits(d) == d
  {
    if d != [] {
      GroupDigitsShort(d[1..]);
      assert d == [d[0]] + d[1..];
    }
  }

  /**
   * Read from the right, the grouping is the last three digits behind a ','
   * and the grouping of the rest: appending a group of three to the digits
   * appends a ',' and the group to their grouping.
   */
  lemma {:induction false} GroupDigitsAppendGroup(a: string, b: string)
    requires |b| == 3
    ensures GroupDigits(a + b) == if a == [] then b else GroupDigits(a) + [','] + b
    decreases |a|
  {
    if a == [] {
      assert a + b == b;
      GroupDigitsShort(b);
    } else {
      var x := a + b;
      var a' := a[1..];
      var c: string := if |a'| % 3 == 0 then [','] else [];
      assert GroupDigits(x) == [a[0]] + c + GroupDigits(a' + b) by {
        assert x[1..] == a' + b;
      }
      GroupDigitsAppendGroup(a', b);
      var g := GroupDigits(a');
      assert GroupDigits(a) == [a[0]] + (if a' == [] then [] else c) + g;
      if a' != [] {
        SeqRegroup([a[0]] + c, g, b);
      }
    }
  }

  lemma SeqRegroup(front: string, g: string, b: string)
    ensures front + (g + [','] + b) == (front + g) + [','] + b
  {
  }

  /** Piece 0 of a Shaped string is an optional '-' and digits; only the digits get commas. */
  lemma GroupIntegerPart(p: string)
    requires Shaped(p) && '.' !in p
    ensures |p| > 0 && p[0] == '-' ==> GroupInteger(p) == "-" + GroupDigits(p[1..])
    ensures !(|p| > 0 && p[0] == '-') ==> GroupInteger(p) == GroupDigits(p)
  {
    forall k | 0 <= k < |p| ensures p[k] != '.' {
      assert p[k] in p;
    }
    if |p| > 0 && p[0] == '-' {
      GroupFromDigits(p, 1);
      assert GroupFrom(p, 0) == "-" + GroupFrom(p, 1);
    } else {
      GroupFromDigits(p, 0);
      assert p[0..] == p;
    }
  }

  // ---------------------------------------------------------------------
  // Steps 4 and 6: split and join
  // ---------------------------------------------------------------------

  lemma JoinCons(head: string, ps: seq<string>)
    requires |ps| >= 1
    ensures Join([head] + ps) == head + "." + Join(ps)
  {
    assert ([head] + ps)[1..] == ps;
  }

  /** Putting c in front of piece 0 puts it in front of the join. */
  lemma JoinPrepend(c: char, head: string, rest: seq<string>)
    ensures Join([[c] + head] + rest) == [c] + Join([head] + rest)
  {
    if rest != [] {
      JoinCons([c] + head, rest);
      JoinCons(head, rest);
      assert [c] + (head + "." + Join(rest)) == ([c] + head) + "." + Join(rest);
    }
  }

  /** Joining the pieces of a split gives the string back. */
  lemma {:induction false} JoinSplit(t: string)
    ensures Join(Split(t)) == t
    decreases |t|
  {
    if t != [] {
      var rest := Split(t[1..]);
      JoinSplit(t[1..]);
      if t[0] == '.' {
        JoinCons([], rest);
      } else {
        JoinPrepend(t[0], rest[0], rest[1..]);
        assert [rest[0]] + rest[1..] == rest;
      }
      assert t == [t[0]] + t[1..];
    }
  }

  /** Piece 0 is the text before the first '.', and no piece contains a '.'. */
  lemma {:induction false} SplitPieces(t: string)
    ensures Split(t)[0] == t[..FirstDot(t)]
    ensures forall i | 0 <= i < |Split(t)| :: '.' !in Split(t)[i]
    decreases |t|
  {
    if t != [] {
      var rest := Split(t[1..]);
      SplitPieces(t[1..]);
      if t[0] != '.' {
        assert t[..FirstDot(t)] == [t[0]] + t[1..][..FirstDot(t[1..])];
        forall i | 0 <= i < |Split(t)| ensures '.' !in Split(t)[i] {
          if i > 0 {
            assert Split(t)[i] == rest[i];
          }
        }
      }
    }
  }

  /** A piece without '.' splits into itself. */
  lemma {:induction false} SplitDotFree(p: string)
    requires '.' !in p
    ensures Split(p) == [p]
    decreases |p|
  {
    if p != [] {
      assert p[0] in p;
      assert '.' !in p[1..] by {
        forall i | 0 <= i < |p[1..]| ensures p[1..][i] != '.' { assert p[1..][i] in p; }
      }
      SplitDotFree(p[1..]);
      assert p == [p[0]] + p[1..];
    }
  }

  /** A dot-free piece followed by '.' is split off as the first piece. */
  lemma {:induction false} SplitAfterPiece(p: string, r: string)
    requires '.' !in p
    ensures Split(p + "." + r) == [p] + Split(r)
    decreases |p|
  {
    if p == [] {
      assert p + "." + r == ['.'] + r;
      assert (['.'] + r)[1..] == r;
    } else {
      var x := p + "." + r;
      assert p[0] in p;
      assert '.' !in p[1..] by {
        forall i | 0 <= i < |p[1..]| ensures p[1..][i] != '.' { assert p[1..][i] in p; }
      }
      assert x[1..] == p[1..] + "." + r;
      SplitAfterPiece(p[1..], r);
      assert p == [p[0]] + p[1..];
    }
  }

  /** Splitting a join of dot-free pieces gives the pieces back. */
  lemma {:induction false} SplitJoin(pieces: seq<string>)
    requires |pieces| >= 1
    requires forall i | 0 <= i < |pieces| :: '.' !in pieces[i]
    ensures Split(Join(pieces)) == pieces
    decreases |pieces|
  {
    if |pieces| == 1 {
      SplitDotFree(pieces[0]);
    } else {
      SplitJoin(pieces[1..]);
      SplitAfterPiece(pieces[0], Join(pieces[1..]));
      assert pieces == [pieces[0]] + pieces[1..];
    }
  }

  /** Writing x into slot 0 and joining puts x in front of what followed piece 0. */
  lemma JoinReplaceHead(pieces: seq<string>, x: string)
    requires |pieces| >= 1
    ensures |pieces[0]| <= |Join(pieces)|
    ensures Join(pieces[0 := x]) == x + Join(pieces)[|pieces[0]|..]
  {
    if |pieces| > 1 {
      assert pieces[0 := x][1..] == pieces[1..];
      assert Join(pieces)[|pieces[0]|..] == "." + Join(pieces[1..]);
    }
  }

  // ---------------------------------------------------------------------
  // Lines 65-68 together
  // ---------------------------------------------------------------------

  /** The optional sign of the integer part (the text before the first '.'). */
  function IntSign(t: string): (sign: string)
    ensures sign == "" || sign == "-"
    ensures |sign| <= FirstDot(t)
  {
    if FirstDot(t) > 0 && t[0] == '-' then "-" else ""
  }

  /** The integer part without its sign. */
  function IntDigits(t: string): string {
    t[|IntSign(t)|..FirstDot(t)]
  }

  /** Everything from the first '.' on (empty when there is none). */
  function Tail(t: string): string {
    t[FirstDot(t)..]
  }

  /** A Shaped string is a sign, digits, and a tail that is empty or starts with '.' and has no ',' or '-'. */
  lemma ShapedParts(t: string)
    requires Shaped(t)
    ensures t == IntSign(t) + IntDigits(t) + Tail(t)
    ensures AllDigits(IntDigits(t))
    ensures Tail(t) == [] || Tail(t)[0] == '.'
    ensures forall i | 0 <= i < |Tail(t)| :: IsNumericChar(Tail(t)[i]) && Tail(t)[i] != '-'
  {
    var k := FirstDot(t);
    var sign := IntSign(t);
    var digits := IntDigits(t);
    forall i | 0 <= i < |digits| ensures IsDigit(digits[i]) {
      assert digits[i] == t[|sign| + i];
    }
    forall i | 0 <= i < |Tail(t)| ensures IsNumericChar(Tail(t)[i]) && Tail(t)[i] != '-' {
      assert Tail(t)[i] == t[k + i];
    }
  }

  /** Lines 65-68 on any string: piece 0 is grouped and everything from the first '.' on is copied. */
  lemma FormatHead(t: string)
    ensures Format(t) == GroupInteger(t[..FirstDot(t)]) + Tail(t)
  {
    var pieces := Split(t);
    SplitPieces(t);
    JoinSplit(t);
    JoinReplaceHead(pieces, GroupInteger(pieces[0]));
  }

  /** The integer part of a Shaped string is grouped after its sign. */
  lemma IntPartGrouped(t: string)
    requires Shaped(t)
    ensures GroupInteger(t[..FirstDot(t)]) == IntSign(t) + GroupDigits(IntDigits(t))
  {
    var p := t[..FirstDot(t)];
    assert Shaped(p);
    assert '.' !in p;
    GroupIntegerPart(p);
    if IntSign(t) == "-" {
      assert p[1..] == IntDigits(t);
    } else {
      assert p == IntDigits(t);
    }
  }

  /** The converse of ShapedParts: a sign, digits and a tail from a '.' on are read back as such. */
  lemma PartsOf(t: string, sign: string, digits: string, tail: string)
    requires t == sign + digits + tail
    requires sign == "" || sign == "-"
    requires AllDigits(digits) && (tail == [] || tail[0] == '.')
    ensures IntSign(t) == sign && IntDigits(t) == digits && Tail(t) == tail
  {
    assert FirstDot(t) == |sign| + |digits| by {
      forall j | 0 <= j < |sign| + |digits| ensures t[j] != '.' {
        if j >= |sign| { assert t[j] == digits[j - |sign|]; }
      }
      if tail != [] { assert t[|sign| + |digits|] == tail[0]; }
    }
    assert IntSign(t) == sign by {
      if sign == "" && t != [] {
        if digits != [] { assert t[0] == digits[0]; } else { assert t[0] == tail[0]; }
      }
    }
  }

  /**
   * Formatting a Shaped string: the digits of the integer part are grouped,
   * the sign stays in front, and everything from the first '.' on, every
   * later '.' included, is copied unchanged.
   */
  lemma FormatLayout(t: string)
    requires Shaped(t)
    ensures Format(t) == IntSign(t) + GroupDigits(IntDigits(t)) + Tail(t)
  {
    FormatHead(t);
    IntPartGrouped(t);
  }

  /** Formatting only adds commas: removing them gives the shaped string back. */
  lemma FormatRemoveCommas(t: string)
    requires Shaped(t)
    ensures RemoveCommas(Format(t)) == t
  {
    FormatLayout(t);
    ShapedParts(t);
    var sign, digits, tail := IntSign(t), IntDigits(t), Tail(t);
    forall i | 0 <= i < |tail| ensures tail[i] != ',' {
      assert IsNumericChar(tail[i]);
    }
    RemoveCommasAppend(sign + GroupDigits(digits), tail);
    RemoveCommasAppend(sign, GroupDigits(digits));
    RemoveCommasNoComma(sign);
    RemoveCommasNoComma(tail);
    GroupDigitsRemoveCommas(digits);
  }

  // ---------------------------------------------------------------------
  // Further facts about the strip step
  // ---------------------------------------------------------------------

  lemma {:induction false} KeptInSplit(t: string, lo: nat, mid: nat, hi: nat)
    requires lo <= mid <= hi <= |t|
    ensures KeptIn(t, lo, hi) == KeptIn(t, lo, mid) + KeptIn(t, mid, hi)
    decreases hi - mid
  {
    if mid < hi {
      KeptInSplit(t, lo, mid, hi - 1);
    }
  }

  lemma {:induction false} KeptInDropLastDot(x: string, hi: nat)
    requires |x| > 0 && x[|x| - 1] == '.'
    requires hi < |x|
    ensures KeptIn(x, 0, hi) == KeptIn(x[..|x| - 1], 0, hi)
    decreases hi
  {
    if hi > 0 {
      var y := x[..|x| - 1];
      KeptInDropLastDot(x, hi - 1);
      assert LeadingDot(x, hi - 1) <==> LeadingDot(y, hi - 1);
      assert TrailingDot(x, hi - 1) <==> TrailingDot(y, hi - 1) by {
        if TrailingDot(y, hi - 1) {
          forall j | hi - 1 <= j < |x| ensures x[j] == '.' {
            if j < |y| { assert x[j] == y[j]; }
          }
        }
        if TrailingDot(x, hi - 1) {
          forall j | hi - 1 <= j < |y| ensures y[j] == '.' {
            assert x[j] == y[j];
          }
        }
      }
    }
  }

  /** A trailing '.' is deleted and changes the fate of no other character. */
  lemma StripDropsLastDot(x: string)
    requires |x| > 0 && x[|x| - 1] == '.'
    ensures Strip(x) == Strip(x[..|x| - 1])
  {
    var y := x[..|x| - 1];
    StripMatchesFilter(x);
    StripMatchesFilter(y);
    KeptInDropLastDot(x, |y|);
    assert TrailingDot(x, |x| - 1);
  }

  /** The text a formatted amount consists of: commas only between digits, '-' only at index 0. */
  predicate FormattedText(x: string) {
    && (forall i | 0 <= i < |x| :: IsOutputChar(x[i]))
    && (forall i | 0 < i < |x| :: x[i] != '-')
    && (forall i | 0 <= i < |x| && x[i] == ',' :: 0 < i < |x| - 1 && IsDigit(x[i - 1]) && IsDigit(x[i + 1]))
  }

  /** Stripping formatted text never leaves a '.' in front. */
  lemma StripFormattedFirst(x: string)
    requires FormattedText(x)
    ensures Strip(x) == [] || Strip(x)[0] != '.'
  {
    var d := DotRunEnd(x, 0);
    StripMatchesFilter(x);
    KeptInSkipsLeadingDots(x, 0, d);
    if d < |x| {
      if d > 0 {
        assert x[d - 1] == '.';
      }
      assert Kept(x, d);
      KeptInCons(x, d, |x|);
    }
  }

  /** Stripping formatted text never leaves a '.' at the end. */
  lemma {:induction false} StripFormattedLast(x: string)
    requires FormattedText(x)
    ensures Strip(x) == [] || Strip(x)[|Strip(x)| - 1] != '.'
    decreases |x|
  {
    if x == [] {
    } else if x[|x| - 1] == '.' {
      var y := x[..|x| - 1];
      StripDropsLastDot(x);
      assert FormattedText(y) by {
        forall i | 0 <= i < |y| && y[i] == ',' ensures 0 < i < |y| - 1 && IsDigit(y[i - 1]) && IsDigit(y[i + 1]) {
          assert x[i] == ',';
        }
      }
      StripFormattedLast(y);
    } else {
      var n := |x| - 1;
      StripMatchesFilter(x);
      assert Kept(x, n);
    }
  }

  /** Text made only of output characters passes the width and minus steps unchanged. */
  lemma ShapeOfOutputChars(x: string)
    requires forall i | 0 <= i < |x| :: IsOutputChar(x[i])
    ensures Shape(x) == Strip(x)
  {
    assert HalfWidth(x) == x;
    assert FirstWideMinus(x) == |x|;
    assert ReplaceFirstMinus(x) == x;
  }

  // ---------------------------------------------------------------------
  // Facts about Format
  // ---------------------------------------------------------------------

  lemma WellGroupedCommasBetweenDigits(g: string)
    requires WellGrouped(g)
    ensures forall j | 0 <= j < |g| && g[j] == ',' :: 0 < j < |g| - 1 && IsDigit(g[j - 1]) && IsDigit(g[j + 1])
  {
    forall j | 0 <= j < |g| && g[j] == ',' ensures 0 < j < |g| - 1 && IsDigit(g[j - 1]) && IsDigit(g[j + 1]) {
      assert (|g| - (j - 1)) % 4 == 1;
      assert j + 1 < |g|;
      assert (|g| - (j + 1)) % 4 == 3;
    }
  }

  /** The three parts of a formatted amount put together. */
  lemma PartsFormatted(sign: string, g: string, tail: string)
    requires sign == "" || sign == "-"
    requires WellGrouped(g)
    requires forall i | 0 <= i < |tail| :: IsNumericChar(tail[i]) && tail[i] != '-'
    ensures FormattedText(sign + g + tail)
  {
    WellGroupedCommasBetweenDigits(g);
    var r := sign + g + tail;
    forall i | 0 <= i < |r|
      ensures IsOutputChar(r[i]) && (i > 0 ==> r[i] != '-')
      ensures r[i] == ',' ==> |sign| <= i < |sign| + |g|
    {
      if |sign| <= i < |sign| + |g| {
        assert r[i] == g[i - |sign|];
      } else if i >= |sign| + |g| {
        assert r[i] == tail[i - |sign| - |g|];
      }
    }
    forall i | 0 <= i < |r| && r[i] == ',' ensures 0 < i < |r| - 1 && IsDigit(r[i - 1]) && IsDigit(r[i + 1]) {
      if |sign| <= i < |sign| + |g| {
        var j := i - |sign|;
        assert r[i] == g[j];
        assert r[i - 1] == g[j - 1] && r[i + 1] == g[j + 1];
      }
    }
  }

  /** Format of a Shaped string is formatted text. */
  lemma FormatFormatted(t: string)
    requires Shaped(t)
    ensures FormattedText(Format(t))
  {
    FormatLayout(t);
    ShapedParts(t);
    if IntDigits(t) != [] {
      GroupDigitsWellGrouped(IntDigits(t));
    }
    PartsFormatted(IntSign(t), GroupDigits(IntDigits(t)), Tail(t));
  }

  /** The first and last characters of sign + g + tail when g has the same ends as the digits it groups. */
  lemma PartsEnds(sign: string, g: string, digits: string, tail: string)
    requires |g| > 0 <==> |digits| > 0
    requires |g| > 0 ==> g[0] == digits[0] && g[|g| - 1] == digits[|digits| - 1]
    requires sign + digits + tail != []
    ensures var r, t := sign + g + tail, sign + digits + tail;
      r != [] && r[0] == t[0] && r[|r| - 1] == t[|t| - 1]
  {
  }

  /** Format keeps the first and the last character of a non-empty Shaped string. */
  lemma FormatEnds(t: string)
    requires Shaped(t) && t != []
    ensures Format(t) != []
    ensures Format(t)[0] == t[0] && Format(t)[|Format(t)| - 1] == t[|t| - 1]
  {
    var sign, digits, tail := IntSign(t), IntDigits(t), Tail(t);
    assert Format(t) == sign + GroupDigits(digits) + tail by {
      FormatLayout(t);
    }
    assert t == sign + digits + tail && AllDigits(digits) by {
      ShapedParts(t);
    }
    if digits != [] {
      GroupDigitsWellGrouped(digits);
    }
    PartsEnds(sign, GroupDigits(digits), digits, tail);
  }

  /** Format adds no '-' and removes none. */
  lemma FormatSign(t: string)
    requires Shaped(t)
    ensures '-' in Format(t) <==> '-' in t
  {
    FormatLayout(t);
    ShapedParts(t);
    var sign, digits, tail := IntSign(t), IntDigits(t), Tail(t);
    var g := GroupDigits(digits);
    if digits != [] {
      GroupDigitsWellGrouped(digits);
    }
    assert '-' !in g by {
      forall i | 0 <= i < |g| ensures g[i] != '-' { }
    }
    assert '-' !in digits by {
      forall i | 0 <= i < |digits| ensures digits[i] != '-' { }
    }
    assert '-' !in tail by {
      forall i | 0 <= i < |tail| ensures tail[i] != '-' { }
    }
  }

  // ---------------------------------------------------------------------
  // convertCurrency
  // ---------------------------------------------------------------------

  /**
   * Lines 61-68: the result is the shaped input with its integer digits
   * grouped; the sign stays in front and the text from the first kept '.'
   * on, every kept '.' included, is copied unchanged; removing the commas
   * gives the shaped string back.
   */
  lemma ConvertLayout(s: string)
    requires s != ""
    ensures Shaped(Shape(s))
    ensures ConvertCurrency(Some(s)) == IntSign(Shape(s)) + GroupDigits(IntDigits(Shape(s))) + Tail(Shape(s))
    ensures RemoveCommas(ConvertCurrency(Some(s))) == Shape(s)
  {
    StripShaped(ReplaceFirstMinus(HalfWidth(s)));
    FormatLayout(Shape(s));
    FormatRemoveCommas(Shape(s));
  }

  /**
   * Lines 57-68: every result consists of ASCII digits, ',', '.' and '-';
   * a '-' only at index 0; a ',' only between two digits.
   */
  lemma ConvertFormatted(value: Option<string>)
    ensures FormattedText(ConvertCurrency(value))
  {
    if value.Some? && value.value != "" {
      StripShaped(ReplaceFirstMinus(HalfWidth(value.value)));
      FormatFormatted(Shape(value.value));
    }
  }

  /** Full-width digits and '．' give the same result as their ASCII forms. */
  lemma ConvertIgnoresWidth(s: string)
    ensures ConvertCurrency(Some(HalfWidth(s))) == ConvertCurrency(Some(s))
  {
    HalfWidthIdempotent(s);
  }

  /**
   * Lines 63-64: the result carries a '-' exactly when the input starts with
   * '-', '−' or 'ー'; a later minus of any kind is deleted.
   */
  lemma ConvertSign(s: string)
    ensures '-' in ConvertCurrency(Some(s)) <==> |s| > 0 && (s[0] == '-' || IsWideMinus(s[0]))
  {
    if s != "" {
      var u := HalfWidth(s);
      var v := ReplaceFirstMinus(u);
      assert u[0] == '-' || IsWideMinus(u[0]) <==> s[0] == '-' || IsWideMinus(s[0]);
      assert FirstWideMinus(u) == 0 <==> IsWideMinus(u[0]);
      assert v[0] == '-' <==> u[0] == '-' || IsWideMinus(u[0]);
      StripShaped(v);
      FormatSign(Strip(v));
    }
  }

  /** A result neither starts nor ends with '.'. */
  predicate NoDanglingDot(r: string) {
    r == [] || (r[0] != '.' && r[|r| - 1] != '.')
  }

  /** Normalising formatted text never leaves a dangling '.'. */
  lemma ConvertFormattedText(x: string)
    requires FormattedText(x)
    ensures NoDanglingDot(ConvertCurrency(Some(x)))
  {
    if x != "" {
      ShapeOfOutputChars(x);
      StripShaped(x);
      StripFormattedFirst(x);
      StripFormattedLast(x);
      if Strip(x) != [] {
        FormatEnds(Strip(x));
      }
    }
  }

  /**
   * The focus/blur round trip (lines 28, 35 and 57-68): removing the commas of
   * a result and normalising again gives the result back, and so does
   * normalising the result itself, exactly when the result has no dangling
   * '.'. So convertCurrency is idempotent on most inputs but not on all.
   */
  lemma RefocusRoundTrip(s: string)
    ensures var r := ConvertCurrency(Some(s));
      && (ConvertCurrency(Some(RemoveCommas(r))) == r <==> NoDanglingDot(r))
      && (ConvertCurrency(Some(r)) == r <==> NoDanglingDot(r))
  {
    var r := ConvertCurrency(Some(s));
    if r != [] {
      var t := Shape(s);
      assert Shaped(t) && r == Format(t) && RemoveCommas(r) == t by {
        ConvertLayout(s);
        FormatLayout(t);
      }
      assert FormattedText(r) by {
        ConvertFormatted(Some(s));
      }
      if NoDanglingDot(r) {
        TidyResultShape(r, t);
      } else {
        assert NoDanglingDot(ConvertCurrency(Some(r))) by {
          ConvertFormattedText(r);
        }
        assert NoDanglingDot(ConvertCurrency(Some(t))) by {
          ShapedFormatted(t);
          ConvertFormattedText(t);
        }
      }
    }
  }

  /** Shaped text is formatted text. */
  lemma ShapedFormatted(t: string)
    requires Shaped(t)
    ensures FormattedText(t)
  {
  }

  /**
   * A result without a dangling '.' and its comma-free form both shape to
   * the shaped string they were formatted from.
   */
  lemma TidyResultShape(r: string, t: string)
    requires Shaped(t) && r == Format(t) && RemoveCommas(r) == t
    requires r != [] && FormattedText(r) && NoDanglingDot(r)
    ensures Shape(r) == t && Shape(t) == t
  {
    assert t != [] by {
      assert r[0] != ',';
      assert RemoveCommas(r) == [r[0]] + RemoveCommas(r[1..]);
    }
    assert Shape(r) == t by {
      ShapeOfOutputChars(r);
      StripTidy(r);
    }
    assert NoDanglingDot(t) by {
      FormatEnds(t);
    }
    TidyShape(t);
  }

  /**
   * Text that is already Shaped and has no '.' at either end passes the
   * width, minus and strip steps unchanged.
   */
  lemma TidyShape(s: string)
    requires Shaped(s) && NoDanglingDot(s)
    ensures Shape(s) == s
  {
    forall i | 0 <= i < |s| ensures s[i] != ',' {
      assert IsNumericChar(s[i]);
    }
    assert ',' !in s;
    ShapeOfOutputChars(s);
    StripTidy(s);
    RemoveCommasNoComma(s);
  }

  /** The part of -?digits(.digits)? from the '.' on: empty, or '.' and the decimal digits. */
  function DecimalTail(e: string): string {
    if e == [] then [] else "." + e
  }

  /** The characters of sign + d + DecimalTail(e): no ',', a '-' only in front, no '.' at either end. */
  lemma PlainChars(sign: string, d: string, e: string)
    requires sign == "" || sign == "-"
    requires d != [] && AllDigits(d) && AllDigits(e)
    ensures var s := sign + d + DecimalTail(e);
      && (forall i | 0 <= i < |s| :: IsNumericChar(s[i]) && s[i] != ',')
      && (forall i | 0 < i < |s| :: s[i] != '-')
      && s[0] != '.' && s[|s| - 1] != '.'
  {
    var tail := DecimalTail(e);
    var s := sign + d + tail;
    forall i | 0 <= i < |s| ensures IsNumericChar(s[i]) && s[i] != ',' && (i > 0 ==> s[i] != '-') {
      if |sign| <= i < |sign| + |d| {
        assert s[i] == d[i - |sign|];
      } else if i > |sign| + |d| {
        assert s[i] == e[i - |sign| - |d| - 1];
      }
    }
    assert s[0] != '.' by {
      if sign == "" { assert s[0] == d[0]; }
    }
    assert s[|s| - 1] != '.' by {
      if e == [] {
        assert s[|s| - 1] == d[|d| - 1];
      } else {
        assert s[|s| - 1] == e[|e| - 1];
      }
    }
  }

  /**
   * Text of the form -?digits(.digits)? passes the width, minus and strip
   * steps unchanged, and formatting only groups its integer digits.
   */
  lemma ConvertPlain(sign: string, d: string, e: string)
    requires sign == "" || sign == "-"
    requires d != [] && AllDigits(d) && AllDigits(e)
    ensures var s := sign + d + DecimalTail(e);
      && Shape(s) == s
      && ConvertCurrency(Some(s)) == sign + GroupDigits(d) + DecimalTail(e)
  {
    var s := sign + d + DecimalTail(e);
    assert Shape(s) == s by {
      PlainChars(sign, d, e);
      TidyShape(s);
    }
    assert Format(s) == sign + GroupDigits(d) + DecimalTail(e) by {
      PlainChars(sign, d, e);
      FormatLayout(s);
      PartsOf(s, sign, d, DecimalTail(e));
    }
  }

  /**
   * Focusing a plain number's result (removing the commas) gives the number
   * back, and blurring (normalising) that gives the formatted text back.
   */
  lemma PlainNumberRoundTrip(sign: string, d: string, e: string)
    requires sign == "" || sign == "-"
    requires d != [] && AllDigits(d) && AllDigits(e)
    ensures var s := sign + d + DecimalTail(e);
      && RemoveCommas(ConvertCurrency(Some(s))) == s
      && ConvertCurrency(Some(RemoveCommas(ConvertCurrency(Some(s))))) == ConvertCurrency(Some(s))
  {
    var s := sign + d + DecimalTail(e);
    ConvertPlain(sign, d, e);
    ConvertLayout(s);
  }
}

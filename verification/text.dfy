/** Text helpers shared by the workload generator and the vector text codec:
    separator-joined lists, splitting on a separator, and decimal integers. */
module Text {
  import opened Common

  /** Parts joined with `sep` between neighbours, as Python's `sep.join(parts)`. */
  function Join(parts: seq<string>, sep: char): string
    decreases |parts|
  {
    if |parts| == 0 then []
    else if |parts| == 1 then parts[0]
    else Join(parts[..|parts| - 1], sep) + [sep] + parts[|parts| - 1]
  }

  /** `[` + the parts joined by commas + `]`: the vector literal layout. */
  function BracketList(parts: seq<string>): string
  {
    "[" + Join(parts, ',') + "]"
  }

  /** Every maximal run between separators, in order; the empty text is one empty part. */
  function Split(s: string, sep: char): (r: seq<string>)
    ensures |r| >= 1
    decreases |s|
  {
    if |s| == 0 then [[]]
    else
      var init := Split(s[..|s| - 1], sep);
      if s[|s| - 1] == sep then init + [[]]
      else init[..|init| - 1] + [init[|init| - 1] + [s[|s| - 1]]]
  }

  /** Number of occurrences of `c` in `s`. */
  function Occurrences(s: string, c: char): nat
    decreases |s|
  {
    if |s| == 0 then 0
    else Occurrences(s[..|s| - 1], c) + (if s[|s| - 1] == c then 1 else 0)
  }

  predicate NoneContains(parts: seq<string>, c: char)
  {
    forall i :: 0 <= i < |parts| ==> c !in parts[i]
  }

  lemma OccurrencesAppend(a: string, b: string, c: char)
    ensures Occurrences(a + b, c) == Occurrences(a, c) + Occurrences(b, c)
    decreases |b|
  {
    if |b| == 0 {
      assert a + b == a;
    } else {
      assert (a + b)[..|a + b| - 1] == a + b[..|b| - 1];
      OccurrencesAppend(a, b[..|b| - 1], c);
    }
  }

  lemma OccurrencesAbsent(s: string, c: char)
    requires c !in s
    ensures Occurrences(s, c) == 0
    decreases |s|
  {
    if |s| > 0 {
      assert s[..|s| - 1] <= s;
      OccurrencesAbsent(s[..|s| - 1], c);
    }
  }

  /** Joining n parts that do not contain the separator puts exactly n - 1 separators in the text. */
  lemma {:induction false} JoinSeparatorCount(parts: seq<string>, sep: char)
    requires |parts| >= 1 && NoneContains(parts, sep)
    ensures Occurrences(Join(parts, sep), sep) == |parts| - 1
    decreases |parts|
  {
    if |parts| == 1 {
      OccurrencesAbsent(parts[0], sep);
    } else {
      var init := parts[..|parts| - 1];
      JoinSeparatorCount(init, sep);
      OccurrencesAppend(Join(init, sep) + [sep], parts[|parts| - 1], sep);
      OccurrencesAppend(Join(init, sep), [sep], sep);
      assert Occurrences([sep], sep) == Occurrences([], sep) + 1 by {
        assert [sep][..0] == [];
      }
      OccurrencesAbsent(parts[|parts| - 1], sep);
    }
  }

  /** One more character that is not a separator extends the last part. */
  lemma SplitSnocPlain(s: string, c: char, sep: char)
    requires c != sep
    ensures var ss := Split(s, sep);
            Split(s + [c], sep) == ss[..|ss| - 1] + [ss[|ss| - 1] + [c]]
  {
    var t := s + [c];
    assert t[..|t| - 1] == s;
  }

  /** Appending text without separators extends the last part. */
  lemma {:induction false} SplitAppendPlain(a: string, b: string, sep: char)
    requires sep !in b
    ensures var sa := Split(a, sep);
            Split(a + b, sep) == sa[..|sa| - 1] + [sa[|sa| - 1] + b]
    decreases |b|
  {
    var sa := Split(a, sep);
    if |b| == 0 {
      assert a + b == a;
      assert sa[|sa| - 1] + b == sa[|sa| - 1];
      InitLast(sa);
    } else {
      var b' := b[..|b| - 1];
      var c := b[|b| - 1];
      InitLast(b);
      assert c != sep && sep !in b';
      SplitAppendPlain(a, b', sep);
      assert a + b == (a + b') + [c];
      SplitSnocPlain(a + b', c, sep);
      var init := Split(a + b', sep);
      assert init[..|init| - 1] == sa[..|sa| - 1];
      assert init[|init| - 1] + [c] == sa[|sa| - 1] + b;
    }
  }

  lemma SplitAfterSeparator(a: string, sep: char)
    ensures Split(a + [sep], sep) == Split(a, sep) + [[]]
  {
    var js := a + [sep];
    assert js[..|js| - 1] == a;
  }

  lemma SplitPlain(p: string, sep: char)
    requires sep !in p
    ensures Split(p, sep) == [p]
  {
    var e: string := [];
    assert Split(e, sep) == [[]];
    SplitAppendPlain(e, p, sep);
    assert e + p == p;
  }

  lemma JoinSnoc(init: seq<string>, last: string, sep: char)
    requires |init| >= 1
    ensures Join(init + [last], sep) == Join(init, sep) + [sep] + last
  {
    var parts := init + [last];
    assert parts[..|parts| - 1] == init;
  }

  lemma SplitJoinStep(init: seq<string>, last: string, sep: char)
    requires |init| >= 1 && sep !in last
    requires Split(Join(init, sep), sep) == init
    ensures Split(Join(init + [last], sep), sep) == init + [last]
  {
    var j := Join(init, sep);
    var js := j + [sep];
    JoinSnoc(init, last, sep);
    SplitAfterSeparator(j, sep);
    SplitAppendPlain(js, last, sep);
    var sj := init + [[]];
    assert sj[..|sj| - 1] == init;
    assert sj[|sj| - 1] + last == last;
  }

  /** Splitting a joined list gives the parts back when no part contains the separator. */
  lemma {:induction false} SplitJoin(parts: seq<string>, sep: char)
    requires |parts| >= 1 && NoneContains(parts, sep)
    ensures Split(Join(parts, sep), sep) == parts
    decreases |parts|
  {
    if |parts| == 1 {
      SplitPlain(parts[0], sep);
    } else {
      var init := parts[..|parts| - 1];
      assert NoneContains(init, sep) by {
        forall i | 0 <= i < |init| ensures sep !in init[i] { assert init[i] == parts[i]; }
      }
      SplitJoin(init, sep);
      SplitJoinStep(init, parts[|parts| - 1], sep);
      InitLast(parts);
    }
  }

  /** A nonempty sequence is its prefix followed by its last element. */
  lemma InitLast<T>(s: seq<T>)
    requires |s| >= 1
    ensures s[..|s| - 1] + [s[|s| - 1]] == s
  {
  }

  /** The right-hand side of `SplitConcat`. */
  function Glue(sx: seq<string>, sy: seq<string>): seq<string>
    requires |sx| >= 1 && |sy| >= 1
  {
    sx[..|sx| - 1] + [sx[|sx| - 1] + sy[0]] + sy[1..]
  }

  lemma GlueAfterSeparator(sx: seq<string>, sy: seq<string>)
    requires |sx| >= 1 && |sy| >= 1
    ensures Glue(sx, sy) + [[]] == Glue(sx, sy + [[]])
  {
    assert (sy + [[]])[1..] == sy[1..] + [[]];
  }

  lemma GlueExtendLast(sx: seq<string>, sy: seq<string>, c: char)
    requires |sx| >= 1 && |sy| >= 1
    ensures var g := Glue(sx, sy);
      g[..|g| - 1] + [g[|g| - 1] + [c]] == Glue(sx, sy[..|sy| - 1] + [sy[|sy| - 1] + [c]])
  {
    var g := Glue(sx, sy);
    var sy2 := sy[..|sy| - 1] + [sy[|sy| - 1] + [c]];
    if |sy| == 1 {
      assert sy2 == [sy[0] + [c]];
      assert sx[|sx| - 1] + sy[0] + [c] == sx[|sx| - 1] + sy2[0];
    } else {
      assert sy2[0] == sy[0];
      assert sy2[1..] == sy[1..|sy| - 1] + [sy[|sy| - 1] + [c]];
      assert g[..|g| - 1] == sx[..|sx| - 1] + [sx[|sx| - 1] + sy[0]] + sy[1..|sy| - 1];
    }
  }

  lemma SplitConcatEmpty(x: string, y: string, sep: char)
    requires |y| == 0
    ensures Split(x + y, sep) == Glue(Split(x, sep), Split(y, sep))
  {
    var sx := Split(x, sep);
    assert x + y == x;
    var e: string := [];
    assert Split(y, sep) == [e];
    assert sx[|sx| - 1] + e == sx[|sx| - 1];
    assert [e][1..] == [];
    InitLast(sx);
  }

  /** Splitting a concatenation: the parts of `x` before its last, then the last part of
      `x` glued to the first part of `y`, then the remaining parts of `y`. */
  lemma {:induction false} SplitConcat(x: string, y: string, sep: char)
    ensures Split(x + y, sep) == Glue(Split(x, sep), Split(y, sep))
    decreases |y|
  {
    var sx := Split(x, sep);
    if |y| == 0 {
      SplitConcatEmpty(x, y, sep);
    } else {
      var y' := y[..|y| - 1];
      var c := y[|y| - 1];
      SplitConcat(x, y', sep);
      assert (x + y)[..|x + y| - 1] == x + y';
      assert (x + y)[|x + y| - 1] == c;
      if c == sep {
        GlueAfterSeparator(sx, Split(y', sep));
      } else {
        GlueExtendLast(sx, Split(y', sep), c);
      }
    }
  }

  /** Only the empty text splits into a single empty part. */
  lemma SplitSingleEmpty(x: string, sep: char)
    ensures Split(x, sep) == [[]] <==> x == []
    ensures |Split(x, sep)| > 1 ==> |x| > 0
  {
    if |x| > 0 {
      var init := Split(x[..|x| - 1], sep);
      var r := Split(x, sep);
      if x[|x| - 1] != sep {
        assert r[|init| - 1] == init[|init| - 1] + [x[|x| - 1]];
        assert |r[|init| - 1]| > 0;
      } else {
        assert |r| == |init| + 1;
      }
    }
  }

  /** A property of characters that the separator and every character of every part
      lack is lacked by every character of the join. */
  lemma {:induction false} JoinAvoids(parts: seq<string>, sep: char, bad: char -> bool)
    requires !bad(sep)
    requires forall i, k :: 0 <= i < |parts| && 0 <= k < |parts[i]| ==> !bad(parts[i][k])
    ensures forall k :: 0 <= k < |Join(parts, sep)| ==> !bad(Join(parts, sep)[k])
    decreases |parts|
  {
    if |parts| > 1 {
      var init := parts[..|parts| - 1];
      var last := parts[|parts| - 1];
      assert forall i :: 0 <= i < |init| ==> init[i] == parts[i];
      JoinAvoids(init, sep, bad);
      var j := Join(init, sep);
      assert Join(parts, sep) == j + [sep] + last;
      forall k | 0 <= k < |Join(parts, sep)| ensures !bad(Join(parts, sep)[k]) {
        if k > |j| {
          assert Join(parts, sep)[k] == last[k - |j| - 1];
        }
      }
    }
  }

  /** The join is at least as long as its last part. */
  lemma JoinCoversLast(parts: seq<string>, sep: char)
    requires |parts| >= 1
    ensures |Join(parts, sep)| >= |parts[|parts| - 1]|
  {
  }

  /** Whether `c` is one of the ASCII decimal digits. */
  predicate IsDigit(c: char)
  {
    '0' <= c <= '9'
  }

  function DigitChar(d: nat): (c: char)
    requires d < 10
    ensures IsDigit(c)
  {
    (d + '0' as int) as char
  }

  function DigitValue(c: char): (d: nat)
    requires IsDigit(c)
    ensures d < 10
  {
    (c as int) - ('0' as int)
  }

  /** Decimal rendering of a natural number, most significant digit first, no leading zeros. */
  function NatToString(n: nat): (s: string)
    ensures |s| >= 1 && forall i :: 0 <= i < |s| ==> IsDigit(s[i])
    decreases n
  {
    if n < 10 then [DigitChar(n)] else NatToString(n / 10) + [DigitChar(n % 10)]
  }

  /** Decimal rendering of an integer, with a leading `-` when negative (Python's `str(int)`). */
  function IntToString(i: int): string
  {
    if i < 0 then "-" + NatToString(-i) else NatToString(i)
  }

  /** The value of a nonempty run of decimal digits. */
  function DigitsValue(s: string): nat
    requires forall i :: 0 <= i < |s| ==> IsDigit(s[i])
    decreases |s|
  {
    if |s| == 0 then 0 else DigitsValue(s[..|s| - 1]) * 10 + DigitValue(s[|s| - 1])
  }

  predicate AllDigits(s: string)
  {
    forall i :: 0 <= i < |s| ==> IsDigit(s[i])
  }

  /** Decimal integer text: an optional sign, then one or more ASCII digits. */
  function ParseInt(s: string): (r: Option<int>)
    ensures r.Some? ==> |s| >= 1
  {
    if |s| >= 2 && (s[0] == '-' || s[0] == '+') && AllDigits(s[1..]) then
      var magnitude: int := DigitsValue(s[1..]);
      Some(if s[0] == '-' then 0 - magnitude else magnitude)
    else if |s| >= 1 && AllDigits(s) then Some(DigitsValue(s))
    else None
  }

  lemma {:induction false} DigitsRoundTrip(n: nat)
    ensures DigitsValue(NatToString(n)) == n
    decreases n
  {
    if n >= 10 {
      var s := NatToString(n);
      DigitsRoundTrip(n / 10);
      assert s[..|s| - 1] == NatToString(n / 10);
    }
  }

  /** Rendering an integer in decimal and reading it back gives the same integer. */
  lemma IntRoundTrip(i: int)
    ensures ParseInt(IntToString(i)) == Some(i)
  {
    var s := IntToString(i);
    if i < 0 {
      assert s[1..] == NatToString(-i);
      assert s[0] == '-';
      DigitsRoundTrip(-i);
    } else {
      assert s == NatToString(i);
      assert IsDigit(s[0]);
      DigitsRoundTrip(i);
    }
  }

  lemma NoCommaInDecimal(i: int)
    ensures ',' !in IntToString(i)
  {
    var s := IntToString(i);
    forall k | 0 <= k < |s| ensures s[k] != ',' {
      if i < 0 && k > 0 {
        assert s[k] == NatToString(-i)[k - 1];
      }
    }
  }
}

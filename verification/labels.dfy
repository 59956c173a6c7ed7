/**
 Turning a selected class index into text, as the result loop of
 `RunInferenceOnImage` does: the label at that index when the label table
 has one, otherwise the fallback `"Prediction: "` followed by the index
 written in decimal.
 */
module Labels {
  import opened Ordering
  import opened TopN

  datatype Option<T> = None | Some(value: T)

  predicate IsDigit(ch: char)
  {
    '0' <= ch <= '9'
  }

  predicate AllDigits(s: string)
  {
    forall i | 0 <= i < |s| :: IsDigit(s[i])
  }

  function DigitChar(d: nat): (ch: char)
    requires d < 10
    ensures IsDigit(ch) && ch as int - '0' as int == d
  {
    ('0' as int + d) as char
  }

  /** Decimal digits without leading zeros: the only digit string starting with `0` is `"0"`. */
  predicate CanonicalDigits(s: string)
  {
    |s| > 0 && AllDigits(s) && (s[0] == '0' ==> |s| == 1)
  }

  /** An optionally signed canonical decimal; there is no `"-0"`. */
  predicate CanonicalInt(s: string)
  {
    if |s| > 0 && s[0] == '-' then CanonicalDigits(s[1..]) && s[1..] != "0" else CanonicalDigits(s)
  }

  /** A non-negative number in decimal, as `operator<<` writes it: no leading zeros. */
  function Decimal(n: nat): (s: string)
    ensures CanonicalDigits(s)
    ensures s[0] == '0' ==> s == "0" && n == 0
  {
    if n < 10 then [DigitChar(n)] else Decimal(n / 10) + [DigitChar(n % 10)]
  }

  /** Reads a string of decimal digits back as a number. */
  function ParseDigits(s: string): nat
    requires AllDigits(s)
  {
    if |s| == 0 then 0
    else ParseDigits(s[..|s| - 1]) * 10 + (s[|s| - 1] as int - '0' as int)
  }

  /** Reads an optionally signed decimal integer; `None` when the text is not one. */
  function ParseInt(s: string): Option<int>
  {
    if |s| > 1 && s[0] == '-' && AllDigits(s[1..]) then Some(0 - ParseDigits(s[1..]) as int)
    else if |s| > 0 && AllDigits(s) then Some(ParseDigits(s))
    else None
  }

  /** Reading back what `Decimal` wrote gives the number. */
  lemma {:induction false} DecimalRoundTrip(n: nat)
    ensures ParseDigits(Decimal(n)) == n
  {
    if n >= 10 {
      DecimalRoundTrip(n / 10);
      var s := Decimal(n);
      assert s[..|s| - 1] == Decimal(n / 10);
    }
  }

  /** A digit string that does not start with `0` denotes a positive number. */
  lemma {:induction false} LeadingDigitPositive(s: string)
    requires |s| > 0 && AllDigits(s) && s[0] != '0'
    ensures ParseDigits(s) >= 1
  {
    if |s| > 1 {
      LeadingDigitPositive(s[..|s| - 1]);
    }
  }

  /** Canonical digits are exactly what `Decimal` writes for the number they denote. */
  lemma {:induction false} CanonicalDigitsAreDecimal(s: string)
    requires CanonicalDigits(s)
    ensures Decimal(ParseDigits(s)) == s
  {
    var last := s[|s| - 1];
    var d := last as int - '0' as int;
    if |s| == 1 {
      assert ParseDigits(s) == ParseDigits(s[..0]) * 10 + d;
      assert DigitChar(d) == last;
    } else {
      var p := s[..|s| - 1];
      assert p[0] == s[0];
      LeadingDigitPositive(p);
      CanonicalDigitsAreDecimal(p);
      var n := ParseDigits(s);
      assert n == ParseDigits(p) * 10 + d;
      assert n / 10 == ParseDigits(p) && n % 10 == d;
      assert DigitChar(d) == last;
      assert s == p + [last];
    }
  }

  /**
   An `int` in decimal, as `operator<<` writes it: canonical digits, a minus
   sign exactly when negative, and text that reads back as the integer.
   */
  function IntToString(i: int): (s: string)
    ensures CanonicalInt(s)
    ensures (|s| > 0 && s[0] == '-') <==> i < 0
    ensures ParseInt(s) == Some(i)
  {
    if i < 0 then
      DecimalRoundTrip(-i);
      var s := "-" + Decimal(-i);
      assert s[1..] == Decimal(-i);
      s
    else
      DecimalRoundTrip(i);
      Decimal(i)
  }

  /** There is one canonical text for each integer: the one `IntToString` writes. */
  lemma CanonicalIntIsIntToString(s: string, i: int)
    requires CanonicalInt(s) && ParseInt(s) == Some(i)
    ensures s == IntToString(i)
  {
    if |s| > 0 && s[0] == '-' {
      CanonicalDigitsAreDecimal(s[1..]);
      assert s == "-" + s[1..];
      LeadingDigitPositive(s[1..]);
    } else {
      CanonicalDigitsAreDecimal(s);
    }
  }

  const FallbackPrefix := "Prediction: "

  /**
   The text shown for a class index. The source compares the index with the
   table size as an unsigned number, so a negative index also takes the
   fallback branch.
   */
  function ResolveLabel(labels: seq<string>, index: int): (text: string)
    ensures 0 <= index < |labels| ==> text == labels[index]
    ensures !(0 <= index < |labels|) ==>
      |text| > |FallbackPrefix| && text[..|FallbackPrefix|] == FallbackPrefix
      && CanonicalInt(text[|FallbackPrefix|..]) && ParseInt(text[|FallbackPrefix|..]) == Some(index)
  {
    if 0 <= index < |labels| then labels[index]
    else
      assert (FallbackPrefix + IntToString(index))[|FallbackPrefix|..] == IntToString(index);
      FallbackPrefix + IntToString(index)
  }

  /**
   With a label table at least as long as the score vector, every selected
   result gets a real label; the fallback is only reached by indices past the
   end of the table.
   */
  lemma SelectedIndicesResolve(prediction: seq<int>, numResults: int32, threshold: int, labels: seq<string>)
    requires |labels| >= |prediction|
    ensures forall e | e in GetTopN(prediction, numResults, threshold, []) ::
      ResolveLabel(labels, e.index) == labels[e.index]
  {
  }

  /**
   One line of the report: the index, the confidence as `scoreText` (the
   stream's three-digit formatting is not modelled), the resolved label and
   a newline.
   */
  function ReportLine(result: Prediction, scoreText: string, labels: seq<string>): (line: string)
    ensures var n := |IntToString(result.index)|;
      n < |line| && ParseInt(line[..n]) == Some(result.index) && line[n] == ' '
    ensures var n := |IntToString(result.index)|;
      n + 3 + |scoreText| <= |line|
      && line[n + 1..n + 1 + |scoreText|] == scoreText
      && line[n + 1 + |scoreText|..n + 3 + |scoreText|] == "  "
    ensures var text := ResolveLabel(labels, result.index);
      |line| == |IntToString(result.index)| + |scoreText| + |text| + 4
      && line[|line| - |text| - 1..] == text + "\n"
  {
    var head := IntToString(result.index);
    var line := head + " " + scoreText + "  " + ResolveLabel(labels, result.index) + "\n";
    assert line[..|head|] == head;
    line
  }

  /** The whole report: one line per result, in the order the selector returned them. */
  function Report(results: seq<Prediction>, labels: seq<string>, showScore: int -> string): (r: string)
    ensures r == "" <==> |results| == 0
    ensures |results| > 0 ==> r[|r| - 1] == '\n'
  {
    if |results| == 0 then ""
    else ReportLine(results[0], showScore(results[0].value), labels) + Report(results[1..], labels, showScore)
  }

  /** The report of two runs of results is the two reports one after the other. */
  lemma {:induction false} ReportAppend(a: seq<Prediction>, b: seq<Prediction>, labels: seq<string>, showScore: int -> string)
    ensures Report(a + b, labels, showScore) == Report(a, labels, showScore) + Report(b, labels, showScore)
  {
    if |a| > 0 {
      assert (a + b)[1..] == a[1..] + b;
      ReportAppend(a[1..], b, labels, showScore);
    } else {
      assert a + b == b;
    }
  }

  /** The text of a class index never holds a newline, whichever branch produced it. */
  lemma NoNewlineInIndexText(i: int)
    ensures '\n' !in IntToString(i)
    ensures '\n' !in FallbackPrefix + IntToString(i)
  {
    var s := IntToString(i);
    if |s| > 0 && s[0] == '-' {
      assert s == "-" + s[1..];
      assert '\n' !in s[1..];
    }
  }

  /**
   Labels come from `getline`, which strips the line break, and the score is
   a formatted number; with neither holding a newline, every report line holds
   exactly one.
   */
  lemma LineHasOneNewline(result: Prediction, scoreText: string, labels: seq<string>)
    requires forall k | 0 <= k < |labels| :: '\n' !in labels[k]
    requires '\n' !in scoreText
    ensures multiset(ReportLine(result, scoreText, labels))['\n'] == 1
  {
    var head := IntToString(result.index);
    var text := ResolveLabel(labels, result.index);
    NoNewlineInIndexText(result.index);
    assert '\n' !in text;
    assert ReportLine(result, scoreText, labels) == head + " " + scoreText + "  " + text + "\n";
    assert multiset(head)['\n'] == 0 && multiset(scoreText)['\n'] == 0 && multiset(text)['\n'] == 0;
  }

  /** The report has one line per selected result. */
  lemma {:induction false} ReportHasOneLinePerResult(results: seq<Prediction>, labels: seq<string>, showScore: int -> string)
    requires forall k | 0 <= k < |labels| :: '\n' !in labels[k]
    requires forall v :: '\n' !in showScore(v)
    ensures multiset(Report(results, labels, showScore))['\n'] == |results|
  {
    if |results| > 0 {
      LineHasOneNewline(results[0], showScore(results[0].value), labels);
      ReportHasOneLinePerResult(results[1..], labels, showScore);
    }
  }
}

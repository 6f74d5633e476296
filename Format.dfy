/**
 * The text that `getEdgesAsString` produces: decimal weights as `std::to_string`
 * writes them, entries joined by commas.
 */
module Format {

  function DigitChar(d: nat): char
    requires d < 10
  {
    "0123456789"[d]
  }

  function DigitValue(c: char): int
  {
    c as int - '0' as int
  }

  /** Decimal digits of `n`, most significant first, no leading zeros. */
  function Digits(n: nat): (s: string)
    ensures |s| > 0
    ensures forall i :: 0 <= i < |s| ==> '0' <= s[i] <= '9'
    ensures n > 0 ==> s[0] != '0'
    decreases n
  {
    if n < 10 then [DigitChar(n)] else Digits(n / 10) + [DigitChar(n % 10)]
  }

  /** `std::to_string(int)`: a minus sign for negative values, then the digits of the magnitude. */
  function IntToString(n: int): (s: string)
    ensures |s| > 0
    ensures s[0] == '-' <==> n < 0
  {
    if n < 0 then "-" + Digits(-n) else Digits(n)
  }

  /** Reads a non-empty run of decimal digits back as a number. */
  function ParseDigits(s: string): int
    decreases |s|
  {
    if |s| == 0 then 0 else 10 * ParseDigits(s[..|s| - 1]) + DigitValue(s[|s| - 1])
  }

  function ParseInt(s: string): int
  {
    if |s| > 0 && s[0] == '-' then -ParseDigits(s[1..]) else ParseDigits(s)
  }

  lemma {:induction false} DigitsRoundTrip(n: nat)
    ensures ParseDigits(Digits(n)) == n
    decreases n
  {
    var s := Digits(n);
    if n >= 10 {
      DigitsRoundTrip(n / 10);
      assert s[..|s| - 1] == Digits(n / 10);
    }
  }

  /** The weight text is unambiguous: reading it back gives the weight. */
  lemma IntToStringRoundTrip(n: int)
    ensures ParseInt(IntToString(n)) == n
  {
    var d := Digits(if n < 0 then -n else n);
    DigitsRoundTrip(if n < 0 then -n else n);
    if n < 0 {
      ParseNegated(d);
    } else {
      ParseUnsigned(d);
    }
  }

  /** A leading minus sign negates the digits after it. */
  lemma ParseNegated(d: string)
    ensures ParseInt("-" + d) == -ParseDigits(d)
  {
    assert ("-" + d)[1..] == d;
  }

  /** A run of digits has no sign to read. */
  lemma ParseUnsigned(d: string)
    requires forall i :: 0 <= i < |d| ==> '0' <= d[i] <= '9'
    ensures ParseInt(d) == ParseDigits(d)
  {
  }

  /** Entries separated by single commas, none before the first or after the last. */
  function JoinComma(entries: seq<string>): string
    decreases |entries|
  {
    if |entries| == 0 then ""
    else if |entries| == 1 then entries[0]
    else entries[0] + "," + JoinComma(entries[1..])
  }

  /** Each entry followed by a comma: what the accumulation loop of `getEdgesAsString` builds. */
  function Terminated(entries: seq<string>): (r: string)
    ensures r == "" <==> entries == []
    ensures entries != [] ==> r[|r| - 1] == ','
    decreases |entries|
  {
    if |entries| == 0 then "" else Terminated(entries[..|entries| - 1]) + entries[|entries| - 1] + ","
  }

  /**
   * `p.substr(0, p.size() - 1)`: drops the last character; on an empty `p`
   * the unsigned `size() - 1` wraps to `npos` and the result is empty.
   */
  function DropLast(p: string): (r: string)
    ensures |p| > 0 ==> |r| == |p| - 1 && r == p[..|p| - 1]
    ensures |p| == 0 ==> r == ""
  {
    if |p| == 0 then p else p[..|p| - 1]
  }

  /** Dropping the final comma of the terminated form gives the comma-joined form. */
  lemma DropLastTerminated(entries: seq<string>)
    ensures DropLast(Terminated(entries)) == JoinComma(entries)
  {
    if |entries| > 0 {
      TerminatedJoin(entries);
      var j := JoinComma(entries);
      assert (j + ",")[..|j|] == j;
    }
  }

  /** Terminating one more entry appends it and a comma. */
  lemma TerminatedSnoc(entries: seq<string>, i: nat)
    requires i < |entries|
    ensures Terminated(entries[..i + 1]) == Terminated(entries[..i]) + (entries[i] + ",")
  {
    assert entries[..i + 1][..i] == entries[..i];
    var t := Terminated(entries[..i]);
    assert t + entries[i] + "," == t + (entries[i] + ",");
  }

  lemma {:induction false} TerminatedJoin(entries: seq<string>)
    requires |entries| > 0
    ensures Terminated(entries) == JoinComma(entries) + ","
    decreases |entries|
  {
    if |entries| > 1 {
      var init := entries[..|entries| - 1];
      var last := entries[|entries| - 1];
      TerminatedJoin(init);
      JoinCommaSnoc(init, last);
      assert init + [last] == entries;
    }
  }

  lemma {:induction false} JoinCommaSnoc(init: seq<string>, last: string)
    requires |init| > 0
    ensures JoinComma(init + [last]) == JoinComma(init) + "," + last
    decreases |init|
  {
    if |init| > 1 {
      assert (init + [last])[1..] == init[1..] + [last];
      JoinCommaSnoc(init[1..], last);
    } else {
      assert (init + [last])[1..] == [last];
    }
  }

  /** Joining non-empty entries gives the empty text exactly when there are no entries. */
  lemma JoinCommaEmpty(entries: seq<string>)
    requires forall i :: 0 <= i < |entries| ==> |entries[i]| > 0
    ensures JoinComma(entries) == "" <==> entries == []
  {
    if |entries| > 1 {
      assert |JoinComma(entries)| >= |entries[0]|;
    }
  }
}

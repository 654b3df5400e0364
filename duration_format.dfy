/** The elapsed-time text printed at the end of a run
    (S3Notify.humanReadableFormat): an ISO-8601 duration such as "PT1H2M3S"
    without its "PT", a space after each number-and-unit pair that is not the
    last thing in the text, in lower case. */
module DurationFormat {
  import opened JavaLang

  /** The unit letters the replacement looks for. */
  predicate IsUnit(c: char) {
    c == 'H' || c == 'M' || c == 'S'
  }

  /** `replaceAll("(\\d[HMS])(?!$)", "$1 ")`, scanning left to right: a digit
      and a unit letter with at least one character after them are copied
      with a space behind them, every other character is copied as it is. */
  function InsertUnitSpaces(s: string): string
  {
    if |s| >= 3 && IsDigit(s[0]) && IsUnit(s[1]) then s[..2] + " " + InsertUnitSpaces(s[2..])
    else if s == [] then []
    else [s[0]] + InsertUnitSpaces(s[1..])
  }

  /** Whether a space follows position i of s in the result: s[i] is a unit
      letter right after a digit, and it is not the last character. */
  predicate SpaceAfter(s: string, i: int) {
    1 <= i < |s| - 1 && IsDigit(s[i - 1]) && IsUnit(s[i])
  }

  /** The reference result, position by position from i on: each character,
      followed by a space exactly where SpaceAfter holds. */
  function SpacedFrom(s: string, i: nat): string
    requires i <= |s|
    decreases |s| - i
  {
    if i == |s| then []
    else [s[i]] + (if SpaceAfter(s, i) then " " else "") + SpacedFrom(s, i + 1)
  }

  /** `humanReadableFormat` on the text of Duration.toString();
      substring(2) throws on a text shorter than two characters. */
  function HumanReadableFormat(duration: string): Result<string>
  {
    if |duration| < 2 then Thrown(StringIndexOutOfBounds)
    else Ok(ToLowerCase(InsertUnitSpaces(duration[2..])))
  }

  lemma PairStep(s: string, i: nat)
    requires i + 2 < |s| && IsDigit(s[i]) && IsUnit(s[i + 1])
    requires InsertUnitSpaces(s[i + 2..]) == SpacedFrom(s, i + 2)
    ensures InsertUnitSpaces(s[i..]) == SpacedFrom(s, i)
  {
    var t := s[i..];
    assert t[0] == s[i] && t[1] == s[i + 1] && t[2..] == s[i + 2..] && t[..2] == [s[i], s[i + 1]];
    assert InsertUnitSpaces(t) == [s[i], s[i + 1]] + " " + SpacedFrom(s, i + 2);
    assert !SpaceAfter(s, i) && SpaceAfter(s, i + 1);
    assert SpacedFrom(s, i + 1) == [s[i + 1]] + " " + SpacedFrom(s, i + 2);
  }

  lemma PlainStep(s: string, i: nat)
    requires i < |s| && !(i + 2 < |s| && IsDigit(s[i]) && IsUnit(s[i + 1])) && !SpaceAfter(s, i)
    requires InsertUnitSpaces(s[i + 1..]) == SpacedFrom(s, i + 1)
    ensures InsertUnitSpaces(s[i..]) == SpacedFrom(s, i)
  {
    var t := s[i..];
    assert t[0] == s[i] && t[1..] == s[i + 1..];
  }

  lemma {:induction false} InsertUnitSpacesFrom(s: string, i: nat)
    requires i <= |s| && !SpaceAfter(s, i)
    ensures InsertUnitSpaces(s[i..]) == SpacedFrom(s, i)
    decreases |s| - i
  {
    if i == |s| {
      assert s[i..] == [];
    } else if i + 2 < |s| && IsDigit(s[i]) && IsUnit(s[i + 1]) {
      assert !SpaceAfter(s, i + 2);
      InsertUnitSpacesFrom(s, i + 2);
      PairStep(s, i);
    } else {
      assert !SpaceAfter(s, i + 1);
      InsertUnitSpacesFrom(s, i + 1);
      PlainStep(s, i);
    }
  }

  /** The scan puts a space after exactly the positions SpaceAfter names. */
  lemma InsertUnitSpacesIsSpaced(s: string)
    ensures InsertUnitSpaces(s) == SpacedFrom(s, 0)
  {
    InsertUnitSpacesFrom(s, 0);
    assert s[0..] == s;
  }

  /** The text without its spaces. */
  function WithoutSpaces(s: string): (r: string)
    ensures ' ' !in r
  {
    if s == [] then [] else (if s[0] == ' ' then [] else [s[0]]) + WithoutSpaces(s[1..])
  }

  lemma {:induction false} WithoutSpacesAppend(x: string, y: string)
    ensures WithoutSpaces(x + y) == WithoutSpaces(x) + WithoutSpaces(y)
    decreases |x|
  {
    if x != [] {
      assert (x + y)[1..] == x[1..] + y;
      WithoutSpacesAppend(x[1..], y);
    } else {
      assert x + y == y;
    }
  }

  /** Nothing but spaces is added: removing the spaces from the result gives
      the input without its spaces. */
  lemma {:induction false} OnlySpacesInserted(s: string)
    ensures WithoutSpaces(InsertUnitSpaces(s)) == WithoutSpaces(s)
    decreases |s|
  {
    if |s| >= 3 && IsDigit(s[0]) && IsUnit(s[1]) {
      OnlySpacesInserted(s[2..]);
      WithoutSpacesAppend(s[..2] + " ", InsertUnitSpaces(s[2..]));
      WithoutSpacesAppend(s[..2], " ");
      WithoutSpacesAppend(s[..2], s[2..]);
      assert s[..2] + s[2..] == s;
    } else if s != [] {
      OnlySpacesInserted(s[1..]);
      WithoutSpacesAppend([s[0]], InsertUnitSpaces(s[1..]));
      WithoutSpacesAppend([s[0]], s[1..]);
      assert [s[0]] + s[1..] == s;
    }
  }

  /** The result ends where the input ends: no space is put after the last
      character, and the result is empty only for an empty input. */
  lemma {:induction false} NoTrailingSpace(s: string)
    ensures |InsertUnitSpaces(s)| >= |s|
    ensures s != [] ==> InsertUnitSpaces(s)[|InsertUnitSpaces(s)| - 1] == s[|s| - 1]
    decreases |s|
  {
    if |s| >= 3 && IsDigit(s[0]) && IsUnit(s[1]) {
      NoTrailingSpace(s[2..]);
    } else if s != [] {
      NoTrailingSpace(s[1..]);
    }
  }

  /** The formatted text is the lower-cased reference text of the input
      after its first two characters, and no space is added at its end: it ends
      with the input's last character, lower-cased. */
  lemma HumanReadableFormatSpec(duration: string)
    requires |duration| >= 2
    ensures HumanReadableFormat(duration) == Ok(ToLowerCase(SpacedFrom(duration[2..], 0)))
    ensures |duration| > 2 ==>
      var r := HumanReadableFormat(duration).value;
      |r| > 0 && r[|r| - 1] == LowerChar(duration[|duration| - 1])
  {
    var s := duration[2..];
    InsertUnitSpacesIsSpaced(s);
    NoTrailingSpace(s);
  }

  /** One hour, two minutes and three seconds. */
  lemma HourMinuteSecond()
    ensures HumanReadableFormat("PT1H2M3S") == Ok("1h 2m 3s")
  {
    var s := "1H2M3S";
    assert "PT1H2M3S"[2..] == s;
    var last := s[4..];
    assert last == "3S";
    assert InsertUnitSpaces(last[1..]) == "S" by {
      assert last[1..] == "S" && "S"[1..] == [];
    }
    assert InsertUnitSpaces(last) == "3S" by { assert [last[0]] + "S" == "3S"; }
    var middle := s[2..];
    assert middle[..2] == "2M" && middle[2..] == last;
    assert InsertUnitSpaces(middle) == "2M 3S";
    assert s[..2] == "1H" && s[2..] == middle;
    assert InsertUnitSpaces(s) == "1H 2M 3S";
    var r := ToLowerCase("1H 2M 3S");
    assert forall i :: 0 <= i < 8 ==> r[i] == "1h 2m 3s"[i];
    assert r == "1h 2m 3s";
    assert HumanReadableFormat("PT1H2M3S") == Ok(ToLowerCase(InsertUnitSpaces(s)));
  }
}

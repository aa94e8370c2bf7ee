/**
  The path builder: where an apprentice's report for a given week is
  expected, `<file_dir>/AN_<last word>_<first word>_<week>.pdf`, with the
  week written as Rust's `{:03}` writes a signed integer.
*/
module PathBuilder {
  import opened Wrappers
  import opened DecimalText
  import opened Whitespace

  /** `digits` zero-filled on the left to at least `width` characters; never cut. */
  function ZeroFill(digits: string, width: nat): (s: string)
    ensures |s| == if |digits| < width then width else |digits|
  {
    if |digits| < width then Zeros(width - |digits|) + digits else digits
  }

  /**
    The week as `{:03}` formats it: at least three characters, zero-filled,
    a minus sign counting towards the width (so -5 becomes "-05").
  */
  function Pad3(week: int): (s: string)
    ensures |s| >= 3
    ensures week >= 0 ==> IsDigits(s)
    ensures week < 0 ==> s[0] == '-' && IsDigits(s[1..])
  {
    if week < 0 then "-" + ZeroFill(Decimal(-week), 2) else ZeroFill(Decimal(week), 3)
  }

  /** Reads an optionally negative decimal integer, the inverse of `Pad3`. */
  function ReadSigned(s: string): int
    requires (|s| > 0 && s[0] == '-' && IsDigits(s[1..])) || IsDigits(s)
  {
    if |s| > 0 && s[0] == '-' then -(Value(s[1..]) as int) else Value(s)
  }

  lemma ValueOfZeroFilled(n: nat, width: nat)
    ensures IsDigits(ZeroFill(Decimal(n), width))
    ensures Value(ZeroFill(Decimal(n), width)) == n
  {
    ValueOfDecimal(n);
    if |Decimal(n)| < width {
      ValueIgnoresLeadingZeros(width - |Decimal(n)|, Decimal(n));
    }
  }

  /** The written week reads back as the week: nothing is lost or truncated. */
  lemma Pad3RoundTrip(week: int)
    ensures ReadSigned(Pad3(week)) == week
  {
    var s := Pad3(week);
    if week < 0 {
      var z := ZeroFill(Decimal(-week), 2);
      ValueOfZeroFilled(-week, 2);
      assert s == "-" + z && s[0] == '-' && s[1..] == z;
    } else {
      ValueOfZeroFilled(week, 3);
      assert s == ZeroFill(Decimal(week), 3) && IsDigit(s[0]);
    }
  }

  /** Distinct weeks are written differently. */
  lemma Pad3Injective(w1: int, w2: int)
    requires Pad3(w1) == Pad3(w2)
    ensures w1 == w2
  {
    Pad3RoundTrip(w1);
    Pad3RoundTrip(w2);
  }

  /** Weeks 0 to 999 are written as exactly three digits. */
  lemma Pad3ThreeDigits(week: int)
    requires 0 <= week <= 999
    ensures Pad3(week) == Fixed(week, 3)
    ensures |Pad3(week)| == 3 && Value(Pad3(week)) == week
  {
    assert Pow10(3) == 1000;
    ZeroFilledDecimalIsFixed(week, 3);
    ValueOfFixed(week, 3);
  }

  /** Weeks from 1000 on are written in full, with more than three digits. */
  lemma Pad3NotTruncated(week: int)
    requires week >= 1000
    ensures Pad3(week) == Decimal(week)
    ensures |Pad3(week)| > 3
  {
    assert Pow10(3) == 1000;
    if |Decimal(week)| <= 3 {
      Pow10Monotone(|Decimal(week)|, 3);
    }
  }

  /** Weeks of -100 or less are a minus sign and the full decimal form, with no leading zero. */
  lemma Pad3LargeNegative(week: int)
    requires week <= -100
    ensures Pad3(week) == "-" + Decimal(-week)
    ensures |Pad3(week)| > 3
  {
    assert Pow10(2) == 100;
    if |Decimal(-week)| <= 2 {
      Pow10Monotone(|Decimal(-week)|, 2);
    }
  }

  /** Weeks -1 to -99 are a minus sign and two digits. */
  lemma Pad3SmallNegative(week: int)
    requires -99 <= week < 0
    ensures Pad3(week) == "-" + Fixed(-week, 2)
    ensures |Pad3(week)| == 3
  {
    assert Pow10(2) == 100;
    ZeroFilledDecimalIsFixed(-week, 2);
  }

  lemma Pad3Examples()
    ensures Pad3(3) == "003" && Pad3(5) == "005" && Pad3(42) == "042"
    ensures Pad3(0) == "000" && Pad3(-5) == "-05" && Pad3(1234) == "1234"
  {
    assert Zeros(1) == "0";
    assert Zeros(2) == "00";
    assert Decimal(42) == "42";
    assert Decimal(1234) == "1234" by {
      assert Decimal(12) == "12";
      assert Decimal(123) == "123";
    }
  }

  // ---------------------------------------------------------------------

  datatype PathError = NameNotInCorrectFormat

  /**
    The expected report path: the last word of the name, then the first,
    then the week; a name of fewer than two words is a fatal data error.
  */
  function FilePath(apprentice: string, fileDir: string, week: int): (r: Result<string, PathError>)
    ensures r.Ok? <==> |Words(apprentice)| >= 2
    ensures r.Err? ==> r.error == NameNotInCorrectFormat
  {
    var name := Words(apprentice);
    if |name| >= 2 then Ok(ReportPath(fileDir, name[0], name[|name| - 1], week))
    else Err(NameNotInCorrectFormat)
  }

  /** `<fileDir>/AN_<last>_<first>_<week>.pdf`: ten characters besides its four parts. */
  function ReportPath(fileDir: string, first: string, last: string, week: int): (p: string)
    ensures |p| == |fileDir| + |last| + |first| + |Pad3(week)| + 10
  {
    fileDir + "/AN_" + last + "_" + first + "_" + Pad3(week) + ".pdf"
  }

  /**
    The path starts with the directory, "/AN_" and the last word, and ends
    with the written week and the `.pdf` extension.
  */
  lemma ReportPathLayout(fileDir: string, first: string, last: string, week: int)
    ensures fileDir + "/AN_" + last <= ReportPath(fileDir, first, last, week)
    ensures var p := ReportPath(fileDir, first, last, week);
      p[|p| - |Pad3(week)| - 4..] == Pad3(week) + ".pdf"
  {
    var w := Pad3(week);
    var head := fileDir + "/AN_" + last;
    var p := ReportPath(fileDir, first, last, week);
    assert p == head + ("_" + first + "_") + (w + ".pdf");
  }

  /**
    For a name written as a first word, any middle words and a last word,
    the path names the last word, then the first, then the week.
  */
  lemma FilePathOfName(first: string, middle: seq<string>, last: string, fileDir: string, week: int)
    requires IsWord(first) && IsWord(last) && AllWords(middle)
    ensures FilePath(JoinWithSpaces([first] + middle + [last]), fileDir, week)
         == Ok(fileDir + "/AN_" + last + "_" + first + "_" + Pad3(week) + ".pdf")
  {
    WordsOfJoin([first] + middle + [last]);
  }

  /**
    Only the first and last words matter: middle words and any whitespace
    before, between or after the words leave the path unchanged.
  */
  lemma FilePathOnlyFirstAndLastMatter(apprentice: string, fileDir: string, week: int)
    requires |Words(apprentice)| >= 2
    ensures var ws := Words(apprentice);
      FilePath(apprentice, fileDir, week) == FilePath(JoinWithSpaces([ws[0], ws[|ws| - 1]]), fileDir, week)
  {
    var ws := Words(apprentice);
    var pair := [ws[0], ws[|ws| - 1]];
    var joined := JoinWithSpaces(pair);
    WordsOfJoin(pair);
    SameEndWordsSamePath(apprentice, joined, fileDir, week);
  }

  lemma SameEndWordsSamePath(a: string, b: string, fileDir: string, week: int)
    requires |Words(a)| >= 2 && |Words(b)| >= 2
    requires Words(a)[0] == Words(b)[0] && Words(a)[|Words(a)| - 1] == Words(b)[|Words(b)| - 1]
    ensures FilePath(a, fileDir, week) == FilePath(b, fileDir, week)
  {
    UnfoldFilePath(a, fileDir, week, Words(a));
    UnfoldFilePath(b, fileDir, week, Words(b));
  }

  /** Surrounding whitespace does not change the outcome, success or failure. */
  lemma FilePathIgnoresSurroundingWhitespace(before: string, apprentice: string, after: string, fileDir: string, week: int)
    requires AllWhitespace(before) && AllWhitespace(after)
    ensures FilePath(before + apprentice + after, fileDir, week) == FilePath(apprentice, fileDir, week)
  {
    var padded := before + apprentice + after;
    WordsIgnoreSurroundingWhitespace(before, apprentice, after);
    SameWordsSamePath(padded, apprentice, fileDir, week);
  }

  lemma SameWordsSamePath(a: string, b: string, fileDir: string, week: int)
    requires Words(a) == Words(b)
    ensures FilePath(a, fileDir, week) == FilePath(b, fileDir, week)
  {
    var ws := Words(a);
    if |ws| >= 2 {
      UnfoldFilePath(a, fileDir, week, ws);
      UnfoldFilePath(b, fileDir, week, ws);
    }
  }

  /** Each week of one apprentice has its own path. */
  lemma FilePathDistinguishesWeeks(apprentice: string, fileDir: string, w1: int, w2: int)
    requires FilePath(apprentice, fileDir, w1).Ok?
    requires FilePath(apprentice, fileDir, w1) == FilePath(apprentice, fileDir, w2)
    ensures w1 == w2
  {
    var ws := Words(apprentice);
    UnfoldFilePath(apprentice, fileDir, w1, ws);
    UnfoldFilePath(apprentice, fileDir, w2, ws);
    ReportPathDistinguishesWeeks(fileDir, ws[0], ws[|ws| - 1], w1, w2);
  }

  lemma UnfoldFilePath(apprentice: string, fileDir: string, week: int, ws: seq<string>)
    requires ws == Words(apprentice) && |ws| >= 2
    ensures FilePath(apprentice, fileDir, week) == Ok(ReportPath(fileDir, ws[0], ws[|ws| - 1], week))
  {
  }

  lemma ReportPathDistinguishesWeeks(fileDir: string, first: string, last: string, w1: int, w2: int)
    requires ReportPath(fileDir, first, last, w1) == ReportPath(fileDir, first, last, w2)
    ensures w1 == w2
  {
    var prefix := fileDir + "/AN_" + last + "_" + first + "_";
    var p1, p2 := Pad3(w1), Pad3(w2);
    assert ReportPath(fileDir, first, last, w1) == prefix + (p1 + ".pdf");
    assert ReportPath(fileDir, first, last, w2) == prefix + (p2 + ".pdf");
    assert |p1| == |p2|;
    assert p1 == (prefix + (p1 + ".pdf"))[|prefix|..|prefix| + |p1|];
    assert p2 == (prefix + (p2 + ".pdf"))[|prefix|..|prefix| + |p2|];
    Pad3Injective(w1, w2);
  }

  /** A name of fewer than two words is refused, whatever the week. */
  lemma FilePathRefusesShortNames(apprentice: string, fileDir: string, week: int)
    requires AllWhitespace(apprentice) || IsWord(apprentice)
    ensures FilePath(apprentice, fileDir, week) == Err(NameNotInCorrectFormat)
  {
    if AllWhitespace(apprentice) {
      WordsOfWhitespace(apprentice);
    } else {
      WordsOfWord(apprentice);
    }
  }

  // The examples take the name as a parameter: a literal name would make the
  // verifier unfold `Words` character by character.

  lemma FilePathExampleTwoWords(name: string)
    requires name == "Jane Doe"
    ensures FilePath(name, "dir", 5) == Ok("dir/AN_Doe_Jane_005.pdf")
  {
    var ws := ["Jane", "Doe"];
    assert Words(name) == ws by {
      assert ws[1..] == ["Doe"];
      assert JoinWithSpaces(ws) == name;
      WordsOfJoin(ws);
    }
    assert FilePath(name, "dir", 5) == Ok(ReportPath("dir", "Jane", "Doe", 5));
    ReportPathExample();
  }

  lemma FilePathExampleMiddleWord(name: string)
    requires name == "Jane Middle Doe"
    ensures FilePath(name, "dir", 5) == Ok("dir/AN_Doe_Jane_005.pdf")
  {
    WordsOfExampleName(name);
    assert FilePath(name, "dir", 5) == Ok(ReportPath("dir", "Jane", "Doe", 5));
    ReportPathExample();
  }

  lemma ReportPathExample()
    ensures ReportPath("dir", "Jane", "Doe", 5) == "dir/AN_Doe_Jane_005.pdf"
  {
    assert Pad3(5) == "005" by {
      assert Decimal(5) == "5" && Zeros(2) == "00";
    }
  }

  lemma WordsOfExampleName(name: string)
    requires name == "Jane Middle Doe"
    ensures Words(name) == ["Jane", "Middle", "Doe"]
  {
    var ws := ["Jane", "Middle", "Doe"];
    assert ws[1..] == ["Middle", "Doe"] && ws[1..][1..] == ["Doe"];
    assert JoinWithSpaces(ws[1..]) == "Middle Doe";
    assert JoinWithSpaces(ws) == name;
    assert IsWord("Jane") && IsWord("Middle") && IsWord("Doe");
    WordsOfJoin(ws);
  }

  lemma FilePathExampleOneWord(name: string)
    requires name == "Jane"
    ensures FilePath(name, "dir", 5) == Err(NameNotInCorrectFormat)
  {
    FilePathRefusesShortNames(name, "dir", 5);
  }
}

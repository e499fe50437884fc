/** datahandler: splits the OCR text of one listing into an item name and an item price. */
module Extractor {
  import opened PyText
  import opened DigitRatio
  import opened Confusion

  /** item_price: a string, or the integer 0 that the parse fallback stores */
  datatype Price = PStr(text: string) | PZero

  /** The two accumulators of the loop, item_name and item_price */
  datatype Record = Record(name: string, price: Price)

  /** Both accumulators before the first line */
  const Initial := Record("", PStr(""))

  // ---------------------------------------------------------------------------
  // Per-line handling

  /** A line other than the last counts as price text when at least half of it
      is digits or it holds more than one comma; the digit share is stated on the
      counts, and PriceLineByRatio ties it to dt_ratio. */
  predicate IsPriceLine(line: string)
  {
    (line != [] && 2 * DigitCount(line) >= |line|) || CountChar(line, ',') > 1
  }

  /** The test datahandler writes, dt_ratio(line) >= 0.5 or more than one comma,
      picks out exactly the price lines. */
  lemma {:induction false} PriceLineByRatio(line: string)
    ensures IsPriceLine(line) <==> DtRatio(line) >= 0.5 || CountChar(line, ',') > 1
  {
    DtRatioShare(line);
  }

  /** A name line with every '1' read as the letter 'l' */
  function NameFix(line: string): string
  {
    Replace(line, '1', "l")
  }

  /** The fixed line holds no '1', and a line without one is left as it is. */
  lemma NameFixNoOne(line: string)
    ensures '1' !in NameFix(line)
    ensures '1' !in line ==> NameFix(line) == line
  {
    ReplaceRemoves(line, '1', "l");
  }

  /** The price the last line gives: its l2d correction c, with "1" put in front
      when c parses as zero, and the integer 0 when c does not parse */
  function LastLinePrice(line: string): Price
  {
    var c := Corrected(line);
    match ParseInt(c)
    case None => PZero
    case Some(v) => if v == 0 then PStr("1" + c) else PStr(c)
  }

  /** One turn of the loop; last is the text of the last line */
  function Step(acc: Record, line: string, last: string): Record
  {
    if line == last then acc.(price := LastLinePrice(line))
    else if IsPriceLine(line) then acc.(price := PStr(Corrected(line)))
    else acc.(name := acc.name + NameFix(line) + " ")
  }

  /** The accumulators after the loop has handled every line of lines, in order */
  function Run(lines: seq<string>, last: string): Record
  {
    if lines == [] then Initial
    else Step(Run(lines[..|lines| - 1], last), lines[|lines| - 1], last)
  }

  /** item_name with one trailing space removed, if it ends in one */
  function TrimOneSpace(s: string): string
  {
    if |s| > 0 && s[|s| - 1] == ' ' then s[..|s| - 1] else s
  }

  /** The result of datahandler for the lines that splitlines() gives */
  function ExtractLines(lines: seq<string>): Record
  {
    if lines == [] then Initial
    else
      var acc := Run(lines, lines[|lines| - 1]);
      acc.(name := TrimOneSpace(acc.name))
  }

  /** The result of datahandler(text) */
  function Extract(text: string): Record
  {
    ExtractLines(SplitLines(text))
  }

  // ---------------------------------------------------------------------------
  // The loop

  /** datahandler(text): one pass over the lines, then the trim of item_name */
  method DataHandler(text: string) returns (itemName: string, itemPrice: Price)
    ensures Record(itemName, itemPrice) == Extract(text)
    ensures text == [] ==> itemName == "" && itemPrice == PStr("")
    ensures text != [] ==>
      var lines := SplitLines(text);
      lines != [] &&
      itemName == JoinSpaced(Names(lines, lines[|lines| - 1])) &&
      itemPrice == LastLinePrice(lines[|lines| - 1])
    ensures '1' !in itemName
  {
    itemName := "";
    itemPrice := PStr("");
    var lines := SplitLines(text);
    ghost var last := if lines == [] then "" else lines[|lines| - 1];
    var i := 0;
    while i < |lines|
      invariant 0 <= i <= |lines|
      invariant Record(itemName, itemPrice) == Run(lines[..i], last)
    {
      itemName, itemPrice := HandleLine(text, lines[i], itemName, itemPrice);
      RunSnoc(lines, i, last);
      i := i + 1;
    }
    assert lines[..|lines|] == lines;
    ghost var acc := Record(itemName, itemPrice);
    if |itemName| > 0 && itemName[|itemName| - 1] == ' ' {
      itemName := itemName[..|itemName| - 1];
    }
    assert itemName == TrimOneSpace(acc.name);
    assert Record(itemName, itemPrice) == Extract(text) by {
      if lines == [] {
        assert acc == Initial;
      } else {
        assert acc == Run(lines, lines[|lines| - 1]);
      }
    }
    ExtractResult(text);
  }

  /** The body of datahandler's loop for one line of text: the line that reads like the
      last line sets the price through the int() test, other price text sets the price,
      and anything else is appended to the name. */
  method HandleLine(text: string, line: string, itemName: string, itemPrice: Price)
    returns (name: string, price: Price)
    requires SplitLines(text) != []
    ensures var lines := SplitLines(text);
      Record(name, price) == Step(Record(itemName, itemPrice), line, lines[|lines| - 1])
  {
    name, price := itemName, itemPrice;
    var all := SplitLines(text);
    ghost var next := Step(Record(itemName, itemPrice), line, all[|all| - 1]);
    if line == all[|all| - 1] {
      var fixed := L2d(line);
      match ParseInt(fixed)
      case None =>
        price := PZero;
      case Some(v) =>
        if v == 0 {
          fixed := "1" + fixed;
        }
        price := PStr(fixed);
      assert Record(name, price) == next;
    } else if DtRatio(line) >= 0.5 || CountChar(line, ',') > 1 {
      PriceLineByRatio(line);
      var fixed := L2d(line);
      price := PStr(fixed);
      assert Record(name, price) == next;
    } else {
      PriceLineByRatio(line);
      var fixed := Replace(line, '1', "l");
      name := name + fixed + " ";
      assert Record(name, price) == next;
    }
  }

  /** Running over one more line is one more Step. */
  lemma {:induction false} RunSnoc(lines: seq<string>, i: nat, last: string)
    requires i < |lines|
    ensures Run(lines[..i + 1], last) == Step(Run(lines[..i], last), lines[i], last)
  {
    assert lines[..i + 1][..i] == lines[..i];
  }

  // ---------------------------------------------------------------------------
  // Reference definitions of the two results

  /** The name lines of lines, after the '1' fix, in input order: the lines that
      differ from the last line's text and are not price text */
  function Names(lines: seq<string>, last: string): seq<string>
  {
    if lines == [] then []
    else
      var init := Names(lines[..|lines| - 1], last);
      var line := lines[|lines| - 1];
      if line != last && !IsPriceLine(line) then init + [NameFix(line)] else init
  }

  /** Every string followed by one space, concatenated: what the loop appends */
  function Spaced(xs: seq<string>): string
  {
    if xs == [] then [] else Spaced(xs[..|xs| - 1]) + xs[|xs| - 1] + " "
  }

  /** The strings joined by single spaces, as " ".join(xs) */
  function JoinSpaced(xs: seq<string>): string
  {
    if xs == [] then []
    else if |xs| == 1 then xs[0]
    else JoinSpaced(xs[..|xs| - 1]) + " " + xs[|xs| - 1]
  }

  /** The name accumulator is the name lines, each followed by a space. */
  lemma {:induction false} RunName(lines: seq<string>, last: string)
    ensures Run(lines, last).name == Spaced(Names(lines, last))
  {
    if lines != [] {
      var init := lines[..|lines| - 1];
      RunName(init, last);
      var xs := Names(init, last);
      if lines[|lines| - 1] != last && !IsPriceLine(lines[|lines| - 1]) {
        assert (xs + [NameFix(lines[|lines| - 1])])[..|xs|] == xs;
      }
    }
  }

  lemma {:induction false} SpacedEndsInSpace(xs: seq<string>)
    requires xs != []
    ensures Spaced(xs) == JoinSpaced(xs) + " "
  {
    if |xs| > 1 {
      SpacedEndsInSpace(xs[..|xs| - 1]);
    } else {
      assert xs[..0] == [];
    }
  }

  /** Removing one trailing space turns the appended fragments into the joined name. */
  lemma {:induction false} TrimSpaced(xs: seq<string>)
    ensures TrimOneSpace(Spaced(xs)) == JoinSpaced(xs)
  {
    if xs != [] {
      SpacedEndsInSpace(xs);
      var j := JoinSpaced(xs);
      assert (j + " ")[..|j|] == j;
    }
  }

  /** For at least one line: item_name is the name lines joined by single spaces, and
      item_price is what the last line gives. */
  lemma {:induction false} ExtractClosedForm(lines: seq<string>)
    requires lines != []
    ensures ExtractLines(lines) ==
      Record(JoinSpaced(Names(lines, lines[|lines| - 1])), LastLinePrice(lines[|lines| - 1]))
  {
    var last := lines[|lines| - 1];
    RunName(lines, last);
    TrimSpaced(Names(lines, last));
  }

  /** What datahandler(text) returns: ("", "") for the empty text; otherwise the name
      lines joined by single spaces and the price the last line gives. The name never
      holds the digit 1. */
  lemma {:induction false} ExtractResult(text: string)
    ensures SplitLines(text) == [] <==> text == []
    ensures text == [] ==> Extract(text) == Record("", PStr(""))
    ensures text != [] ==>
      var lines := SplitLines(text);
      lines != [] &&
      Extract(text) == Record(JoinSpaced(Names(lines, lines[|lines| - 1])), LastLinePrice(lines[|lines| - 1]))
    ensures '1' !in Extract(text).name
  {
    var lines := SplitLines(text);
    SplitLinesEmpty(text);
    if lines != [] {
      ExtractClosedForm(lines);
    }
    NameHasNoOne(lines);
  }

  // ---------------------------------------------------------------------------
  // The name

  lemma {:induction false} JoinSpacedNoOne(xs: seq<string>)
    requires forall i :: 0 <= i < |xs| ==> '1' !in xs[i]
    ensures '1' !in JoinSpaced(xs)
  {
    if |xs| > 1 {
      JoinSpacedNoOne(xs[..|xs| - 1]);
    }
  }

  lemma {:induction false} NamesNoOne(lines: seq<string>, last: string)
    ensures forall i :: 0 <= i < |Names(lines, last)| ==> '1' !in Names(lines, last)[i]
  {
    if lines != [] {
      NamesNoOne(lines[..|lines| - 1], last);
      NameFixNoOne(lines[|lines| - 1]);
    }
  }

  /** item_name never holds the digit 1. */
  lemma {:induction false} NameHasNoOne(lines: seq<string>)
    ensures '1' !in ExtractLines(lines).name
  {
    if lines != [] {
      var last := lines[|lines| - 1];
      ExtractClosedForm(lines);
      NamesNoOne(lines, last);
      JoinSpacedNoOne(Names(lines, last));
    }
  }

  lemma {:induction false} NamesAppend(a: seq<string>, b: seq<string>, last: string)
    ensures Names(a + b, last) == Names(a, last) + Names(b, last)
  {
    if b == [] {
      assert a + b == a;
    } else {
      var b' := b[..|b| - 1];
      assert (a + b)[..|a + b| - 1] == a + b';
      assert (a + b)[|a + b| - 1] == b[|b| - 1];
      NamesAppend(a, b', last);
    }
  }

  /** A line before the last that is price text, or that reads the same as the last
      line, leaves no trace: without it datahandler gives the same name and price. */
  lemma {:induction false} DropIgnoredLine(lines: seq<string>, i: int)
    requires 0 <= i < |lines| - 1
    requires lines[i] == lines[|lines| - 1] || IsPriceLine(lines[i])
    ensures ExtractLines(lines[..i] + lines[i + 1..]) == ExtractLines(lines)
  {
    var last := lines[|lines| - 1];
    var dropped := lines[..i] + lines[i + 1..];
    assert dropped[|dropped| - 1] == last;
    assert lines == lines[..i] + [lines[i]] + lines[i + 1..];
    NamesAppend(lines[..i] + [lines[i]], lines[i + 1..], last);
    NamesAppend(lines[..i], [lines[i]], last);
    NamesAppend(lines[..i], lines[i + 1..], last);
    assert Names([lines[i]], last) == [] by {
      assert [lines[i]][..0] == [];
    }
    ExtractClosedForm(lines);
    ExtractClosedForm(dropped);
  }

  // ---------------------------------------------------------------------------
  // The price

  /** The three outcomes of the last line, stated on its correction c: no integer
      literal gives the integer 0, a zero literal gets a leading "1", any other
      literal is kept as it is. */
  lemma {:induction false} LastLinePriceCases(line: string)
    ensures var c := Corrected(line);
      && (LastLinePrice(line) == PZero <==> !IsIntLiteral(c))
      && (ParseInt(c).Some? && ZeroDigits(c) ==> LastLinePrice(line) == PStr("1" + c))
      && (ParseInt(c).Some? && !ZeroDigits(c) ==> LastLinePrice(line) == PStr(c))
      && LastLinePrice(line) != PStr("")
  {
    var c := Corrected(line);
    ParseIntGrammar(c);
    ParseIntNeedsDigit([]);
    if ParseInt(c).Some? {
      ParseIntZero(c);
    }
  }

  /** A last line without digits and without letters that l2d turns into digits
      cannot parse: item_price becomes the integer 0. */
  lemma {:induction false} NoDigitPriceIsZero(line: string)
    requires forall i :: 0 <= i < |line| ==> !IsDigit(line[i]) && !(line[i] in "oOsSG")
    ensures LastLinePrice(line) == PZero
  {
    CorrectedKeepsNonDigit(line);
    ParseIntNeedsDigit(Corrected(line));
  }

  lemma {:induction false} CorrectedKeepsNonDigit(s: string)
    requires forall i :: 0 <= i < |s| ==> !IsDigit(s[i]) && !(s[i] in "oOsSG")
    ensures forall i :: 0 <= i < |Corrected(s)| ==> !IsDigit(Corrected(s)[i])
  {
    if s != [] {
      CorrectedKeepsNonDigit(s[1..]);
      var head, tail := Fix(s[0]), Corrected(s[1..]);
      assert forall i :: |head| <= i < |head + tail| ==> (head + tail)[i] == tail[i - |head|];
    }
  }

  /** For a bare run of zeros the leading-one rule gives a literal that parses to a
      nonzero value. */
  lemma {:induction false} ZeroRuleOnDigits(c: string)
    requires c != [] && AllDigits(c) && ZeroDigits(c)
    ensures ParseInt(c) == Some(0)
    ensures ParseInt("1" + c).Some? && ParseInt("1" + c).value != 0
  {
    DigitsAreStripped(c);
    DigitsValueZero(c);
    var d := "1" + c;
    assert AllDigits(d) by {
      assert forall i :: 1 <= i < |d| ==> d[i] == c[i - 1];
    }
    DigitsAreStripped(d);
    ParseIntZero(d);
    assert d[0] == '1';
  }

  lemma {:induction false} DigitsAreStripped(d: string)
    requires d != [] && AllDigits(d)
    ensures Strip(d) == d && ParseInt(d) == Some(DigitsValue(d))
  {
    assert d[..0] == [] && d[|d|..] == [];
    StripAt(d, 0, |d|);
    assert d[0..|d|] == d;
  }

  /** A corrected last line that parses as zero but starts with whitespace or a sign
      stops being an integer once the "1" is put in front of it. */
  lemma {:induction false} ZeroRuleBreaksPadded(c: string)
    requires c != [] && ParseInt(c) == Some(0)
    requires IsSpace(c[0]) || c[0] == '+' || c[0] == '-'
    ensures ParseInt("1" + c) == None
  {
    var d := "1" + c;
    ParseIntGrammar(c);
    var k', m' :| 0 <= k' < m' <= |c| && IntLiteralAt(c, k', m');
    var j := m' - 1;
    assert IsDigit(c[j]) by {
      var u := c[k'..m'];
      assert u[|u| - 1] == c[j];
      if |u| >= 2 && (u[0] == '+' || u[0] == '-') && AllDigits(u[1..]) {
        assert u[1..][|u| - 2] == u[|u| - 1];
      }
    }
    forall k, m | 0 <= k < m <= |d| ensures !IntLiteralAt(d, k, m) {
      assert k > 0 ==> !AllSpace(d[..k]) by {
        if k > 0 {
          assert d[..k][0] == '1';
        }
      }
      assert k == 0 && m == 1 ==> !AllSpace(d[m..]) by {
        if m == 1 {
          assert d[1..][j] == c[j];
        }
      }
      assert k == 0 && m >= 2 ==> !SignedDigits(d[k..m]) by {
        if k == 0 && m >= 2 {
          var u := d[0..m];
          assert u[0] == '1' && u[1] == c[0];
        }
      }
    }
    ParseIntGrammar(d);
  }

  /** The leading "1" goes in front of the whole correction, whitespace included:
      a last line " 0" parses as zero and becomes the text "1 0", which is no integer. */
  lemma {:induction false} ZeroRuleBeforeWhitespace()
    ensures LastLinePrice(" 0") == PStr("1 0")
    ensures ParseInt("1 0") == None
  {
    var s, t := " 0", "1 0";
    assert Corrected(s) == s by {
      assert forall i :: 0 <= i < |s| ==> !Confusable(s[i]);
      CorrectedKeepsClean(s);
    }
    assert Strip(s) == "0" by {
      assert s[..1] == [' '] && s[2..] == [];
      StripAt(s, 1, 2);
      assert s[1..2] == "0";
    }
    assert ParseLiteral("0") == Some(0) by {
      assert AllDigits("0");
      assert "0"[..0] == [];
    }
    assert Strip(t) == t by {
      assert t[..0] == [] && t[3..] == [];
      StripAt(t, 0, 3);
      assert t[0..3] == t;
    }
    assert ParseLiteral(t) == None by {
      assert !IsDigit(t[1]) && t[1..][0] == t[1];
    }
    assert "1" + s == t;
  }

  /** A last line of plain digits is kept, or gets a leading "1" when all its digits are 0. */
  lemma {:induction false} PlainDigitsPrice(line: string)
    requires line != [] && AllDigits(line)
    ensures LastLinePrice(line) == if ZeroDigits(line) then PStr("1" + line) else PStr(line)
  {
    var zero := ZeroDigits(line);
    assert Corrected(line) == line by {
      assert forall i :: 0 <= i < |line| ==> !Confusable(line[i]);
      CorrectedKeepsClean(line);
    }
    var v := DigitsValue(line);
    assert ParseInt(line) == Some(v) by {
      DigitsAreStripped(line);
    }
    assert v == 0 <==> zero by {
      DigitsValueZero(line);
    }
  }

  // ---------------------------------------------------------------------------
  // A well-formed listing

  /** A line without digits and commas is name text, and the '1' fix leaves it alone. */
  predicate PlainWords(line: string)
  {
    forall i :: 0 <= i < |line| ==> !IsDigit(line[i]) && line[i] != ','
  }

  lemma {:induction false} PlainWordsAreName(line: string)
    requires PlainWords(line)
    ensures !IsPriceLine(line) && NameFix(line) == line
  {
    assert forall i :: 0 <= i < |line| ==> line[i] != '1';
    NameFixNoOne(line);
    CountCharZero(line, ',');
    DigitCountExtremes(line);
  }

  lemma {:induction false} PlainNames(words: seq<string>, last: string)
    requires forall i :: 0 <= i < |words| ==> PlainWords(words[i]) && words[i] != last
    ensures Names(words, last) == words
  {
    if words != [] {
      var init := words[..|words| - 1];
      PlainNames(init, last);
      PlainWordsAreName(words[|words| - 1]);
      assert init + [words[|words| - 1]] == words;
    }
  }

  /** Name lines of words followed by a price line of plain digits give the words joined
      by single spaces and that price, with the leading "1" when it is all zeros. */
  lemma {:induction false} WellFormedListing(words: seq<string>, price: string)
    requires forall i :: 0 <= i < |words| ==> PlainWords(words[i]) && words[i] != price
    requires price != [] && AllDigits(price)
    ensures ExtractLines(words + [price]) ==
      Record(JoinSpaced(words), if ZeroDigits(price) then PStr("1" + price) else PStr(price))
  {
    var lines := words + [price];
    assert lines[|lines| - 1] == price;
    ExtractClosedForm(lines);
    NamesAppend(words, [price], price);
    PlainNames(words, price);
    assert Names([price], price) == [] by {
      assert [price][..0] == [];
    }
    PlainDigitsPrice(price);
  }

  // ---------------------------------------------------------------------------
  // The caller's text

  /** The caller ends every OCR result with '\n'; datahandler then sees exactly those
      results as its lines. */
  lemma {:induction false} CallerText(results: seq<string>)
    requires forall i :: 0 <= i < |results| ==> '\n' !in results[i]
    ensures Extract(Terminated(results)) == ExtractLines(results)
  {
    SplitLinesTerminated(results);
  }
}

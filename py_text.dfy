/** Models of the Python string built-ins that the OCR post-processing relies on:
    str.isdigit, str.count, str.replace, str.splitlines and int() on a string.
    Each is restricted to the ASCII behaviour that the post-processing can see. */
module PyText {

  datatype Option<T> = None | Some(value: T)

  /** str.isdigit on one character, restricted to the ASCII digits */
  predicate IsDigit(c: char) { '0' <= c <= '9' }

  predicate AllDigits(s: string) { forall i :: 0 <= i < |s| ==> IsDigit(s[i]) }

  /** The ASCII characters that int() skips around a literal */
  predicate IsSpace(c: char) { c == ' ' || '\t' <= c <= '\r' }

  predicate AllSpace(s: string) { forall i :: 0 <= i < |s| ==> IsSpace(s[i]) }

  // ---------------------------------------------------------------------------
  // str.count and str.replace for a one-character pattern

  /** s.count(c) */
  function CountChar(s: string, c: char): (n: nat)
    ensures n <= |s|
  {
    if s == [] then 0 else (if s[0] == c then 1 else 0) + CountChar(s[1..], c)
  }

  /** The count is zero exactly when c does not occur. */
  lemma {:induction false} CountCharZero(s: string, c: char)
    ensures CountChar(s, c) == 0 <==> c !in s
  {
    if s != [] {
      CountCharZero(s[1..], c);
      assert s == [s[0]] + s[1..];
    }
  }

  /** s.replace(pat, sub): every occurrence of the character pat becomes sub */
  function Replace(s: string, pat: char, sub: string): (r: string)
  {
    if s == [] then [] else (if s[0] == pat then sub else [s[0]]) + Replace(s[1..], pat, sub)
  }

  /** No pat is left when sub holds none, a one-character sub never lengthens the text,
      and text without pat is returned as it is. */
  lemma {:induction false} ReplaceRemoves(s: string, pat: char, sub: string)
    ensures pat !in sub ==> pat !in Replace(s, pat, sub)
    ensures |sub| <= 1 ==> |Replace(s, pat, sub)| <= |s|
    ensures pat !in s ==> Replace(s, pat, sub) == s
  {
    if s != [] {
      ReplaceRemoves(s[1..], pat, sub);
      assert s == [s[0]] + s[1..];
    }
  }

  /** Replacing works character by character, so it distributes over concatenation. */
  lemma {:induction false} ReplaceAppend(a: string, b: string, pat: char, sub: string)
    ensures Replace(a + b, pat, sub) == Replace(a, pat, sub) + Replace(b, pat, sub)
  {
    if a != [] {
      assert (a + b)[0] == a[0];
      assert (a + b)[1..] == a[1..] + b;
      var head := if a[0] == pat then sub else [a[0]];
      calc {
        Replace(a + b, pat, sub);
        head + Replace(a[1..] + b, pat, sub);
        { ReplaceAppend(a[1..], b, pat, sub); }
        head + (Replace(a[1..], pat, sub) + Replace(b, pat, sub));
        Replace(a, pat, sub) + Replace(b, pat, sub);
      }
    } else {
      assert a + b == b;
    }
  }

  lemma {:induction false} ReplaceSingle(c: char, pat: char, sub: string)
    ensures Replace([c], pat, sub) == if c == pat then sub else [c]
  {
    assert [c][1..] == [];
  }

  // ---------------------------------------------------------------------------
  // str.splitlines, for the '\n' terminator

  /** The segments of s between '\n' separators: n separators give n + 1 segments. */
  function Split(s: string): (r: seq<string>)
    ensures |r| >= 1
  {
    if s == [] then [[]]
    else
      var rest := Split(s[1..]);
      if s[0] == '\n' then [[]] + rest else [[s[0]] + rest[0]] + rest[1..]
  }

  /** No segment holds the separator. */
  lemma {:induction false} SplitNoNewline(s: string)
    ensures forall i :: 0 <= i < |Split(s)| ==> '\n' !in Split(s)[i]
  {
    if s != [] {
      SplitNoNewline(s[1..]);
    }
  }

  /** s.splitlines(): the segments, without the empty one after a final terminator */
  function SplitLines(s: string): seq<string>
  {
    var segments := Split(s);
    if segments[|segments| - 1] == [] then segments[..|segments| - 1] else segments
  }

  /** The text a list of lines makes when every line is followed by '\n' */
  function Terminated(lines: seq<string>): string
  {
    if lines == [] then [] else lines[0] + "\n" + Terminated(lines[1..])
  }

  lemma {:induction false} SplitAfterLine(a: string, b: string)
    requires '\n' !in a
    ensures Split(a + "\n" + b) == [a] + Split(b)
  {
    if a == [] {
      assert a + "\n" + b == "\n" + b;
      assert ("\n" + b)[1..] == b;
    } else {
      assert (a + "\n" + b)[0] == a[0];
      assert (a + "\n" + b)[1..] == a[1..] + "\n" + b;
      SplitAfterLine(a[1..], b);
      assert [a[0]] + a[1..] == a;
    }
  }

  /** Splitting undoes terminating: the lines come back, followed by one empty segment. */
  lemma {:induction false} SplitTerminated(lines: seq<string>)
    requires forall i :: 0 <= i < |lines| ==> '\n' !in lines[i]
    ensures Split(Terminated(lines)) == lines + [[]]
  {
    if lines != [] {
      SplitAfterLine(lines[0], Terminated(lines[1..]));
      SplitTerminated(lines[1..]);
      assert [lines[0]] + (lines[1..] + [[]]) == lines + [[]];
    }
  }

  /** splitlines() gives back exactly the lines a caller terminated with '\n'. */
  lemma {:induction false} SplitLinesTerminated(lines: seq<string>)
    requires forall i :: 0 <= i < |lines| ==> '\n' !in lines[i]
    ensures SplitLines(Terminated(lines)) == lines
  {
    SplitTerminated(lines);
    assert (lines + [[]])[..|lines|] == lines;
  }

  /** splitlines() yields no line exactly for the empty text. */
  lemma {:induction false} SplitLinesEmpty(s: string)
    ensures SplitLines(s) == [] <==> s == []
  {
    if s != [] {
      var rest := Split(s[1..]);
      if s[0] != '\n' && |rest| == 1 {
        assert Split(s) == [[s[0]] + rest[0]];
      }
    }
  }

  // ---------------------------------------------------------------------------
  // int() on a string, base 10

  function LStrip(s: string): (r: string)
    ensures |r| <= |s|
  {
    if s != [] && IsSpace(s[0]) then LStrip(s[1..]) else s
  }

  /** LStrip keeps a suffix that does not start with whitespace, and what it cuts is
      whitespace. */
  lemma {:induction false} LStripCut(s: string)
    ensures LStrip(s) == s[|s| - |LStrip(s)|..]
    ensures LStrip(s) != [] ==> !IsSpace(LStrip(s)[0])
    ensures AllSpace(s[..|s| - |LStrip(s)|])
  {
    if s != [] && IsSpace(s[0]) {
      LStripCut(s[1..]);
      var n := |s| - |LStrip(s)|;
      assert s[1..][|s| - 1 - |LStrip(s)|..] == s[n..];
      assert forall i :: 1 <= i < n ==> s[..n][i] == s[1..][..n - 1][i - 1];
    }
  }

  function RStrip(s: string): (r: string)
    ensures |r| <= |s|
  {
    if s != [] && IsSpace(s[|s| - 1]) then RStrip(s[..|s| - 1]) else s
  }

  /** RStrip keeps a prefix that does not end in whitespace, and what it cuts is
      whitespace. */
  lemma {:induction false} RStripCut(s: string)
    ensures RStrip(s) == s[..|RStrip(s)|]
    ensures RStrip(s) != [] ==> !IsSpace(RStrip(s)[|RStrip(s)| - 1])
    ensures AllSpace(s[|RStrip(s)|..])
  {
    if s != [] && IsSpace(s[|s| - 1]) {
      var s' := s[..|s| - 1];
      RStripCut(s');
      var n := |RStrip(s)|;
      assert s'[..n] == s[..n];
      assert s'[n..] == s[n..][..|s| - 1 - n];
    }
  }

  /** The text int() parses: s without the whitespace it skips on either side */
  function Strip(s: string): string
  {
    RStrip(LStrip(s))
  }

  /** Strip(s) is the slice s[k..k + |Strip(s)|], with only whitespace cut on either side. */
  lemma {:induction false} StripShape(s: string) returns (k: nat)
    ensures k + |Strip(s)| <= |s| && Strip(s) == s[k..k + |Strip(s)|]
    ensures AllSpace(s[..k]) && AllSpace(s[k + |Strip(s)|..])
    ensures Strip(s) != [] ==> !IsSpace(Strip(s)[0]) && !IsSpace(Strip(s)[|Strip(s)| - 1])
  {
    var l := LStrip(s);
    var t := RStrip(l);
    k := |s| - |l|;
    LStripCut(s);
    RStripCut(l);
    assert l == s[k..];
    assert t == l[..|t|];
    assert l[..|t|] == s[k..k + |t|];
    assert l[|t|..] == s[k + |t|..];
    if t != [] {
      assert t[0] == l[0];
    }
  }

  lemma {:induction false} LStripAt(s: string, k: int)
    requires 0 <= k < |s| && AllSpace(s[..k]) && !IsSpace(s[k])
    ensures LStrip(s) == s[k..]
  {
    if k > 0 {
      assert s[1..][..k - 1] == s[..k][1..];
      LStripAt(s[1..], k - 1);
      assert s[1..][k - 1..] == s[k..];
    }
  }

  lemma {:induction false} RStripAt(s: string, m: int)
    requires 0 < m <= |s| && AllSpace(s[m..]) && !IsSpace(s[m - 1])
    ensures RStrip(s) == s[..m]
  {
    if m < |s| {
      var s' := s[..|s| - 1];
      assert s'[m..] == s[m..][..|s| - 1 - m];
      RStripAt(s', m);
      assert s'[..m] == s[..m];
    } else {
      assert s[..m] == s;
    }
  }

  /** Whitespace around a slice that starts and ends with non-whitespace is what int() skips. */
  lemma {:induction false} StripAt(s: string, k: int, m: int)
    requires 0 <= k < m <= |s| && AllSpace(s[..k]) && AllSpace(s[m..])
    requires !IsSpace(s[k]) && !IsSpace(s[m - 1])
    ensures Strip(s) == s[k..m]
  {
    LStripAt(s, k);
    var l := s[k..];
    assert l[m - k..] == s[m..];
    assert l[m - k - 1] == s[m - 1];
    RStripAt(l, m - k);
    assert l[..m - k] == s[k..m];
  }

  /** The value of a run of decimal digits */
  function DigitsValue(ds: string): nat
    requires AllDigits(ds)
  {
    if ds == [] then 0 else 10 * DigitsValue(ds[..|ds| - 1]) + (ds[|ds| - 1] as int - '0' as int)
  }

  /** An optional sign followed by at least one digit */
  predicate SignedDigits(t: string)
  {
    (|t| >= 2 && (t[0] == '+' || t[0] == '-') && AllDigits(t[1..])) || (t != [] && AllDigits(t))
  }

  /** The value of a stripped literal; None when it is not a signed run of digits */
  function ParseLiteral(t: string): Option<int>
  {
    if |t| >= 2 && (t[0] == '+' || t[0] == '-') && AllDigits(t[1..]) then
      var magnitude: int := DigitsValue(t[1..]);
      Option<int>.Some(if t[0] == '-' then -magnitude else magnitude)
    else if t != [] && AllDigits(t) then
      Some(DigitsValue(t))
    else
      None
  }

  /** int(s): None stands for the ValueError Python raises */
  function ParseInt(s: string): Option<int>
  {
    ParseLiteral(Strip(s))
  }

  /** s[k..m] is a signed run of digits with nothing but whitespace around it */
  predicate IntLiteralAt(s: string, k: int, m: int)
  {
    0 <= k < m <= |s| && AllSpace(s[..k]) && AllSpace(s[m..]) && SignedDigits(s[k..m])
  }

  /** The grammar of int() literals modelled here */
  predicate IsIntLiteral(s: string)
  {
    exists k, m | 0 <= k < m <= |s| :: IntLiteralAt(s, k, m)
  }

  /** int() accepts exactly the signed digit runs surrounded by whitespace. */
  lemma {:induction false} ParseIntGrammar(s: string)
    ensures ParseInt(s).Some? <==> IsIntLiteral(s)
  {
    var t := Strip(s);
    var k := StripShape(s);
    if ParseInt(s).Some? {
      assert IntLiteralAt(s, k, k + |t|);
    }
    if exists k, m :: IntLiteralAt(s, k, m) {
      var k', m' :| IntLiteralAt(s, k', m');
      var u := s[k'..m'];
      assert u[0] == s[k'] && u[|u| - 1] == s[m' - 1];
      assert !IsSpace(s[m' - 1]) by {
        assert IsDigit(u[|u| - 1]) by {
          if |u| >= 2 && (u[0] == '+' || u[0] == '-') && AllDigits(u[1..]) {
            assert u[1..][|u| - 2] == u[|u| - 1];
          }
        }
      }
      StripAt(s, k', m');
    }
  }

  lemma {:induction false} DigitsValueZero(ds: string)
    requires AllDigits(ds)
    ensures DigitsValue(ds) == 0 <==> forall i :: 0 <= i < |ds| ==> ds[i] == '0'
  {
    if ds != [] {
      var init := ds[..|ds| - 1];
      DigitsValueZero(init);
      assert forall i :: 0 <= i < |init| ==> init[i] == ds[i];
    }
  }

  /** Every digit of s is '0' */
  predicate ZeroDigits(s: string)
  {
    forall i :: 0 <= i < |s| && IsDigit(s[i]) ==> s[i] == '0'
  }

  lemma {:induction false} LiteralZero(t: string)
    requires ParseLiteral(t).Some?
    ensures ParseLiteral(t).value == 0 <==> ZeroDigits(t)
  {
    if |t| >= 2 && (t[0] == '+' || t[0] == '-') && AllDigits(t[1..]) {
      var ds := t[1..];
      DigitsValueZero(ds);
      assert forall i :: 1 <= i < |t| ==> t[i] == ds[i - 1];
    } else {
      DigitsValueZero(t);
    }
  }

  /** Whitespace around a slice adds no digit. */
  lemma {:induction false} ZeroDigitsSlice(s: string, k: int, m: int)
    requires 0 <= k <= m <= |s| && AllSpace(s[..k]) && AllSpace(s[m..])
    ensures ZeroDigits(s) <==> ZeroDigits(s[k..m])
  {
    forall i | 0 <= i < k ensures IsSpace(s[i]) {
      assert s[..k][i] == s[i];
    }
    forall i | m <= i < |s| ensures IsSpace(s[i]) {
      assert s[m..][i - m] == s[i];
    }
    assert forall j :: 0 <= j < m - k ==> s[k..m][j] == s[k + j];
  }

  /** A parsed value is zero exactly when every digit of the text is '0'. */
  lemma {:induction false} ParseIntZero(s: string)
    requires ParseInt(s).Some?
    ensures ParseInt(s).value == 0 <==> ZeroDigits(s)
  {
    var t := Strip(s);
    var k := StripShape(s);
    LiteralZero(t);
    ZeroDigitsSlice(s, k, k + |t|);
  }

  /** Text without any digit never parses. */
  lemma {:induction false} ParseIntNeedsDigit(s: string)
    requires forall i :: 0 <= i < |s| ==> !IsDigit(s[i])
    ensures ParseInt(s) == None
  {
    var t := Strip(s);
    var k := StripShape(s);
    if t != [] {
      assert t[0] == s[k];
    }
  }

  /** The information separators 0x1C-0x1F count as whitespace for str.isspace, but
      int() does not skip them: text holding one anywhere raises ValueError. */
  lemma {:induction false} SeparatorsAreNotSkipped(s: string, i: int)
    requires 0 <= i < |s| && '\U{1C}' <= s[i] <= '\U{1F}'
    ensures ParseInt(s) == None
  {
    forall k, m | 0 <= k < m <= |s| ensures !IntLiteralAt(s, k, m) {
      assert i < k ==> !AllSpace(s[..k]) by {
        if i < k {
          assert s[..k][i] == s[i];
        }
      }
      assert m <= i ==> !AllSpace(s[m..]) by {
        if m <= i {
          assert s[m..][i - m] == s[i];
        }
      }
      assert k <= i < m ==> !SignedDigits(s[k..m]) by {
        if k <= i < m {
          var u := s[k..m];
          assert u[i - k] == s[i];
          if i > k && |u| >= 2 {
            assert u[1..][i - k - 1] == s[i];
          }
        }
      }
    }
    ParseIntGrammar(s);
  }

  /** For example, "0" followed by 0x1F raises ValueError. */
  lemma {:induction false} SeparatorIsNotSkipped()
    ensures ParseInt("0\U{1F}") == None
  {
    var s := "0\U{1F}";
    assert Strip(s) == s by {
      assert s[..0] == [] && s[2..] == [];
      StripAt(s, 0, 2);
      assert s[0..2] == s;
    }
    assert !IsDigit(s[1]);
  }
}

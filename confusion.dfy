/** l2d: the letter-to-digit correction applied to price text. */
module Confusion {
  import opened PyText

  /** The replacement table of l2d, in the order its loop visits it */
  const Replacements: seq<(char, string)> :=
    [('o', "0"), ('O', "0"), ('s', "5"), ('S', "5"), ('G', "6"), (',', "")]

  /** The characters l2d rewrites */
  predicate Confusable(c: char) { c in "oOsSG," }

  /** The text after the first |table| replacements, applied one after the other */
  function ApplyReplacements(s: string, table: seq<(char, string)>): string
  {
    if table == [] then s
    else
      var (pat, sub) := table[|table| - 1];
      Replace(ApplyReplacements(s, table[..|table| - 1]), pat, sub)
  }

  /** What l2d does to one character */
  function Fix(c: char): string
  {
    if c == 'o' || c == 'O' then "0"
    else if c == 's' || c == 'S' then "5"
    else if c == 'G' then "6"
    else if c == ',' then ""
    else [c]
  }

  /** Fix yields at most one character, never a confusable one, and keeps any other
      character as it is. */
  lemma FixClean(c: char)
    ensures |Fix(c)| <= 1
    ensures forall i :: 0 <= i < |Fix(c)| ==> !Confusable(Fix(c)[i])
    ensures !Confusable(c) ==> Fix(c) == [c]
  {
  }

  /** The character-by-character reference for l2d */
  function Corrected(s: string): string
  {
    if s == [] then [] else Fix(s[0]) + Corrected(s[1..])
  }

  /** l2d(text): the loop over the replacement table, each step a str.replace */
  method L2d(text: string) returns (r: string)
    ensures r == ApplyReplacements(text, Replacements)
    ensures r == Corrected(text)
    ensures forall i :: 0 <= i < |r| ==> !Confusable(r[i])
    ensures |r| <= |text|
  {
    r := text;
    for i := 0 to |Replacements|
      invariant r == ApplyReplacements(text, Replacements[..i])
    {
      var (pat, sub) := Replacements[i];
      assert Replacements[..i + 1][..i] == Replacements[..i];
      r := Replace(r, pat, sub);
    }
    assert Replacements[..|Replacements|] == Replacements;
    TableIsPerCharacter(text);
    CorrectedClean(text);
    CorrectedShorter(text);
  }

  /** Applying a table distributes over concatenation, as each Replace does. */
  lemma {:induction false} ApplyAppend(a: string, b: string, table: seq<(char, string)>)
    ensures ApplyReplacements(a + b, table) ==
            ApplyReplacements(a, table) + ApplyReplacements(b, table)
  {
    if table != [] {
      var (pat, sub) := table[|table| - 1];
      var init := table[..|table| - 1];
      ApplyAppend(a, b, init);
      ReplaceAppend(ApplyReplacements(a, init), ApplyReplacements(b, init), pat, sub);
    }
  }

  /** On one character the six replacements in turn give Fix. */
  lemma {:induction false} TableOnCharacter(c: char)
    ensures ApplyReplacements([c], Replacements) == Fix(c)
  {
    var t := Replacements;
    assert t[..6] == t;
    assert t[..6][..5] == t[..5] && t[..5][..4] == t[..4] && t[..4][..3] == t[..3];
    assert t[..3][..2] == t[..2] && t[..2][..1] == t[..1] && t[..1][..0] == [];
    var s1 := Replace([c], 'o', "0");
    ReplaceSingle(c, 'o', "0");
    assert ApplyReplacements([c], t[..1]) == s1;
    var c1 := if c == 'o' then '0' else c;
    assert s1 == [c1];
    ReplaceSingle(c1, 'O', "0");
    var c2 := if c1 == 'O' then '0' else c1;
    assert ApplyReplacements([c], t[..2]) == [c2];
    ReplaceSingle(c2, 's', "5");
    var c3 := if c2 == 's' then '5' else c2;
    assert ApplyReplacements([c], t[..3]) == [c3];
    ReplaceSingle(c3, 'S', "5");
    var c4 := if c3 == 'S' then '5' else c3;
    assert ApplyReplacements([c], t[..4]) == [c4];
    ReplaceSingle(c4, 'G', "6");
    var c5 := if c4 == 'G' then '6' else c4;
    assert ApplyReplacements([c], t[..5]) == [c5];
    ReplaceSingle(c5, ',', "");
  }

  /** The table-driven l2d equals the character-by-character reference. */
  lemma {:induction false} TableIsPerCharacter(s: string)
    ensures ApplyReplacements(s, Replacements) == Corrected(s)
  {
    if s != [] {
      calc {
        ApplyReplacements(s, Replacements);
        { assert s == [s[0]] + s[1..]; }
        ApplyReplacements([s[0]] + s[1..], Replacements);
        { ApplyAppend([s[0]], s[1..], Replacements); }
        ApplyReplacements([s[0]], Replacements) + ApplyReplacements(s[1..], Replacements);
        { TableOnCharacter(s[0]); TableIsPerCharacter(s[1..]); }
        Fix(s[0]) + Corrected(s[1..]);
      }
    } else {
      ApplyToEmpty(Replacements);
    }
  }

  lemma {:induction false} ApplyToEmpty(table: seq<(char, string)>)
    ensures ApplyReplacements([], table) == []
  {
    if table != [] {
      ApplyToEmpty(table[..|table| - 1]);
    }
  }

  /** Corrected text holds none of o, O, s, S, G and the comma. */
  lemma {:induction false} CorrectedClean(s: string)
    ensures forall i :: 0 <= i < |Corrected(s)| ==> !Confusable(Corrected(s)[i])
  {
    if s != [] {
      CorrectedClean(s[1..]);
      FixClean(s[0]);
      var head, tail := Fix(s[0]), Corrected(s[1..]);
      assert forall i :: |head| <= i < |head + tail| ==> (head + tail)[i] == tail[i - |head|];
    }
  }

  /** Correction never lengthens the text. */
  lemma {:induction false} CorrectedShorter(s: string)
    ensures |Corrected(s)| <= |s|
  {
    if s != [] {
      CorrectedShorter(s[1..]);
      FixClean(s[0]);
    }
  }

  /** Text without confusable characters is left as it is. */
  lemma {:induction false} CorrectedKeepsClean(s: string)
    requires forall i :: 0 <= i < |s| ==> !Confusable(s[i])
    ensures Corrected(s) == s
  {
    if s != [] {
      CorrectedKeepsClean(s[1..]);
      FixClean(s[0]);
      assert [s[0]] + s[1..] == s;
    }
  }

  /** Correcting twice is correcting once. */
  lemma {:induction false} CorrectedIdempotent(s: string)
    ensures Corrected(Corrected(s)) == Corrected(s)
  {
    CorrectedClean(s);
    CorrectedKeepsClean(Corrected(s));
  }

  /** Correction goes character by character, in order: it distributes over concatenation. */
  lemma {:induction false} CorrectedAppend(a: string, b: string)
    ensures Corrected(a + b) == Corrected(a) + Corrected(b)
  {
    if a != [] {
      assert (a + b)[0] == a[0] && (a + b)[1..] == a[1..] + b;
      CorrectedAppend(a[1..], b);
    } else {
      assert a + b == b;
    }
  }

  /** The characters l2d neither rewrites nor writes */
  predicate Untouched(c: char) { !Confusable(c) && c !in "056" }

  /** The untouched characters of s, in order */
  function Kept(s: string): string
  {
    if s == [] then [] else (if Untouched(s[0]) then [s[0]] else []) + Kept(s[1..])
  }

  lemma {:induction false} KeptAppend(a: string, b: string)
    ensures Kept(a + b) == Kept(a) + Kept(b)
  {
    if a != [] {
      assert (a + b)[0] == a[0] && (a + b)[1..] == a[1..] + b;
      KeptAppend(a[1..], b);
    } else {
      assert a + b == b;
    }
  }

  /** Correction keeps every other character, in order. */
  lemma {:induction false} CorrectedKeepsOthers(s: string)
    ensures Kept(Corrected(s)) == Kept(s)
  {
    if s != [] {
      KeptAppend(Fix(s[0]), Corrected(s[1..]));
      CorrectedKeepsOthers(s[1..]);
      FixClean(s[0]);
      var f := Fix(s[0]);
      assert Kept(f) == if Untouched(s[0]) then [s[0]] else [] by {
        if f != [] {
          assert f[1..] == [];
        }
      }
    }
  }
}

/** `persian_ordinal_string` and `persian_counting_ordinal_string`: ordinals
    made from the cardinal text. Zero and one are fixed words; otherwise a
    cardinal ending in the word "سه" (three) has that word turned into "سوم"
    (third), and any other cardinal takes the suffix "م". The counting
    ordinal appends "ین". */
module Ordinal {
  import opened Strings
  import opened Grouping
  import opened Lexicon
  import opened Cardinal
  import opened Reading

  const Zeroth := "صفرم"
  const First := "اول"
  const Three := "سه"
  const Third := "سوم"
  /** The ordinal suffix. */
  const Nth := "م"
  /** The counting-ordinal suffix. */
  const Counting := "ین"

  /** The ordinal as `persian_ordinal_string` computes it: only a cardinal
      ending in " سه", with the space, is rewritten, so 3 itself is not. */
  function OrdinalAsWritten(num: int): string
  {
    if num == 0 then Zeroth
    else if num == 1 then First
    else
      var s := NumeralString(num);
      if EndsWith(s, " " + Three) then s[..|s| - 2] + Third else s + Nth
  }

  /** The cardinal's last word is "سه": the whole text, or after a space. */
  predicate EndsInThree(s: string)
  {
    s == Three || EndsWith(s, " " + Three)
  }

  /** The ordinal with the rewrite applied to every cardinal whose last word
      is "سه", 3 included. */
  function Ordinal(num: int): (r: string)
    ensures num != 1 ==> EndsWith(r, Nth)
  {
    if num == 0 then Zeroth
    else if num == 1 then First
    else
      var s := NumeralString(num);
      if EndsInThree(s) then s[..|s| - 2] + Third else s + Nth
  }

  /** `persian_counting_ordinal_string`: the ordinal followed by "ین". */
  function CountingOrdinal(num: int): string
  {
    Ordinal(num) + Counting
  }

  /** `persian_counting_ordinal_string` as written: the as-written ordinal
      followed by "ین". */
  function CountingOrdinalAsWritten(num: int): string
  {
    OrdinalAsWritten(num) + Counting
  }

  /** The number an ordinal text stands for: the fixed words, a cardinal
      followed by "م", or a cardinal whose last "سه" became "سوم". */
  function ParseOrdinal(s: string): Option<int>
  {
    if s == Zeroth then Some(0)
    else if s == First then Some(1)
    else if EndsWith(s, Nth) && ParseCardinal(s[..|s| - 1]).Some? then ParseCardinal(s[..|s| - 1])
    else if EndsWith(s, Third) then ParseCardinal(s[..|s| - |Third|] + Three)
    else None
  }

  function ParseCountingOrdinal(s: string): Option<int>
  {
    if EndsWith(s, Counting) then ParseOrdinal(s[..|s| - |Counting|]) else None
  }

  /** Tokens whose last one is not a word do not read as a number. */
  lemma {:induction false} UnknownLast(toks: seq<string>)
    requires |toks| > 0 && ParseWord(toks[|toks| - 1]) == None
    ensures Read(toks) == None
  {
  }

  /** A text whose last token is "سو" is no cardinal. */
  lemma NotCardinal(p: string)
    requires p == "" || p[|p| - 1] == ' '
    ensures ParseCardinal(p + "سو") == None
  {
    SplitNoSep("سو", ' ');
    assert ParseWord("سو") == None;
    var toks := Split(p + "سو", ' ');
    if p == "" {
      assert p + "سو" == "سو";
    } else {
      var init := p[..|p| - 1];
      assert p + "سو" == init + [' '] + "سو";
      SplitSep(init, "سو", ' ');
    }
    assert toks[|toks| - 1] == "سو";
    UnknownLast(toks);
    if |toks| > 1 {
      assert toks[1..][|toks| - 2] == "سو";
      UnknownLast(toks[1..]);
    }
  }

  /** No number other than 0 is spelled "صفر". */
  lemma NotZero(n: int)
    requires n != 0
    ensures NumeralString(n) != Zero
  {
    CardinalRoundTrip(n);
    CardinalRoundTrip(0);
  }

  /** A rewritten ordinal: the cardinal minus its final "سه", then "سوم". */
  lemma RewrittenRead(c: string, n: int)
    requires EndsInThree(c) && ParseCardinal(c) == Some(n)
    ensures ParseOrdinal(c[..|c| - 2] + Third) == Some(n)
  {
    var p := c[..|c| - 2];
    var s := p + Third;
    assert s[|s| - 1] == 'م' && s[|s| - 2] == 'و';
    assert s != Zeroth && s != First;
    assert s[..|s| - 1] == p + "سو";
    NotCardinal(p);
    assert s[..|s| - |Third|] == p;
    assert p + Three == c;
  }

  /** A suffixed ordinal: the cardinal, then "م". */
  lemma SuffixedRead(c: string, n: int)
    requires c != Zero && ParseCardinal(c) == Some(n)
    ensures ParseOrdinal(c + Nth) == Some(n)
  {
    var s := c + Nth;
    assert s[|s| - 1] == 'م';
    assert s != First;
    assert s[..|s| - 1] == c;
    assert Zeroth[..|Zeroth| - 1] == Zero;
  }

  /** Reading an ordinal gives back its number. */
  lemma OrdinalRoundTrip(n: int)
    ensures ParseOrdinal(Ordinal(n)) == Some(n)
  {
    if n != 0 && n != 1 {
      var c := NumeralString(n);
      CardinalRoundTrip(n);
      if EndsInThree(c) {
        RewrittenRead(c, n);
      } else {
        NotZero(n);
        SuffixedRead(c, n);
      }
    }
  }

  /** Different numbers have different ordinals. */
  lemma OrdinalInjective(a: int, b: int)
    requires Ordinal(a) == Ordinal(b)
    ensures a == b
  {
    OrdinalRoundTrip(a);
    OrdinalRoundTrip(b);
  }

  /** Reading a counting ordinal gives back its number. */
  lemma CountingOrdinalRoundTrip(n: int)
    ensures ParseCountingOrdinal(CountingOrdinal(n)) == Some(n)
  {
    OrdinalRoundTrip(n);
    var o := Ordinal(n);
    assert (o + Counting)[..|o|] == o;
  }

  /** Every number but 0 and 1 whose cardinal ends in the word "سه" has an
      ordinal ending in "سوم" (third). */
  lemma OrdinalThird(n: int)
    requires n != 0 && n != 1 && EndsInThree(NumeralString(n))
    ensures EndsWith(Ordinal(n), Third)
  {
    var s := NumeralString(n);
    var r := s[..|s| - 2] + Third;
    assert r[|r| - |Third|..] == Third;
  }

  lemma WordsOfThree()
    ensures TripletWords(3) == [Number(3)]
  {
    TripletParts(3);
    assert 3 / 100 == 0 && 3 / 10 == 0;
    var ds := Digits(3);
    assert ds[0] == 0 && ds[1] == 0 && ds[2] == 3;
    assert OnesPart(0, 3) == [Number(3)];
  }

  lemma TripletThree()
    ensures TripletText(3).text == Three
  {
    WordsOfThree();
    assert Texts([Number(3)]) == [Three];
  }

  /** The cardinal of 3 is "سه". */
  lemma CardinalThree()
    ensures NumeralString(3) == Three
  {
    CardinalOfGroup(3);
    TripletThree();
  }

  /** As written, 3 becomes "سهم" rather than "سوم", though its cardinal
      ends in the word "سه": the cardinal has no space before it. Its
      counting ordinal is then "سهمین". */
  lemma OrdinalThreeAsWritten()
    ensures EndsInThree(NumeralString(3))
    ensures OrdinalAsWritten(3) == Three + Nth && !EndsWith(OrdinalAsWritten(3), Third)
    ensures CountingOrdinalAsWritten(3) == Three + Nth + Counting
    ensures Ordinal(3) == Third
  {
    CardinalThree();
    assert (Three + Nth)[1] != Third[1];
  }

  /** Reading the ordinal as written also gives back its number. */
  lemma OrdinalAsWrittenRoundTrip(n: int)
    ensures ParseOrdinal(OrdinalAsWritten(n)) == Some(n)
  {
    if n == 3 {
      CardinalThree();
      CardinalRoundTrip(3);
      SuffixedRead(Three, 3);
    } else {
      OrdinalAgrees(n);
      OrdinalRoundTrip(n);
    }
  }

  /** Reading the counting ordinal as written gives back its number. */
  lemma CountingOrdinalAsWrittenRoundTrip(n: int)
    ensures ParseCountingOrdinal(CountingOrdinalAsWritten(n)) == Some(n)
  {
    OrdinalAsWrittenRoundTrip(n);
    var o := OrdinalAsWritten(n);
    assert (o + Counting)[..|o|] == o;
  }

  /** For every number but 3 the ordinal as written is the corrected one. */
  lemma OrdinalAgrees(n: int)
    requires n != 3
    ensures OrdinalAsWritten(n) == Ordinal(n)
  {
    if n != 0 && n != 1 && NumeralString(n) == Three {
      CardinalThree();
      NumeralStringInjective(n, 3);
    }
  }
}

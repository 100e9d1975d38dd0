/** The Persian words the library spells numbers with, and `triplet_to_string`:
    one base-1000 group in 1..999 spelled from the hundreds, tens and ones
    tables, its words joined with " و " ("and"). */
module Lexicon {
  import opened Strings

  datatype Option<T> = None | Some(value: T)

  /** What `triplet_to_string` yields: its text, or the `ValueError(num)` it raises. */
  datatype Outcome = Ok(text: string) | ValueError(arg: int)

  /** A word of a spelled number: a table word standing for `value`, a scale
      word, "تریلیون" (trillion), or the conjunction "و". */
  datatype Word = Number(value: nat) | Billion | Million | Thousand | Trillion | Conjunction

  /** The separator every list of parts is joined with: the conjunction between spaces. */
  const And := " و "

  /** The values the tables have a word for: 1..19, the tens 20..90 and the hundreds 100..900. */
  predicate IsTableValue(v: nat)
  {
    1 <= v <= 19 || v in {20, 30, 40, 50, 60, 70, 80, 90}
    || v in {100, 200, 300, 400, 500, 600, 700, 800, 900}
  }

  predicate IsWord(w: Word)
  {
    w.Number? ==> IsTableValue(w.value)
  }

  /** The word of the tables for `v`. */
  function NumberText(v: nat): string
  {
    match v
    case 1 => "یک"
    case 2 => "دو"
    case 3 => "سه"
    case 4 => "چهار"
    case 5 => "پنج"
    case 6 => "شش"
    case 7 => "هفت"
    case 8 => "هشت"
    case 9 => "نه"
    case 10 => "ده"
    case 11 => "یازده"
    case 12 => "دوازده"
    case 13 => "سیزده"
    case 14 => "چهارده"
    case 15 => "پانزده"
    case 16 => "شانزده"
    case 17 => "هفده"
    case 18 => "هجده"
    case 19 => "نوزده"
    case 20 => "بیست"
    case 30 => "سی"
    case 40 => "چهل"
    case 50 => "پنجاه"
    case 60 => "شصت"
    case 70 => "هفتاد"
    case 80 => "هشتاد"
    case 90 => "نود"
    case 100 => "صد"
    case 200 => "دویست"
    case 300 => "سیصد"
    case 400 => "چهارصد"
    case 500 => "پانصد"
    case 600 => "ششصد"
    case 700 => "هفتصد"
    case 800 => "هشتصد"
    case 900 => "نهصد"
    case _ => ""
  }

  function Text(w: Word): string
  {
    match w
    case Number(v) => NumberText(v)
    case Billion => "میلیارد"
    case Million => "میلیون"
    case Thousand => "هزار"
    case Trillion => "تریلیون"
    case Conjunction => "و"
  }

  function Texts(ws: seq<Word>): (r: seq<string>)
    ensures |r| == |ws| && forall i :: 0 <= i < |ws| ==> r[i] == Text(ws[i])
  {
    if |ws| == 0 then [] else Texts(ws[..|ws| - 1]) + [Text(ws[|ws| - 1])]
  }

  /** The hundreds table, for the hundreds digit `d`; no word for 0. */
  function HundredsPart(d: int): seq<Word>
  {
    if 1 <= d <= 9 then [Number(100 * d)] else []
  }

  /** The tens table, for the tens digit `d`; no word for 0 and 1 (the teens
      come with the ones digit). */
  function TensPart(d: int): seq<Word>
  {
    if 2 <= d <= 9 then [Number(10 * d)] else []
  }

  /** The ones table, for the ones digit `d`: a tens digit of 1 selects the
      teen word (so 0 then gives "ده"), otherwise 0 has no word. */
  function OnesPart(tens: int, d: int): seq<Word>
  {
    if 0 <= d <= 9 && tens == 1 then [Number(10 + d)]
    else if 1 <= d <= 9 then [Number(d)]
    else []
  }

  /** The hundreds, tens and ones digits of `num`, computed as
      `triplet_to_string` does. */
  function Digits(num: int): (r: seq<int>)
    ensures |r| == 3
  {
    var hundreds := num / 100;
    var tens := (num - hundreds * 100) / 10;
    var ones := num - (hundreds * 100 + tens * 10);
    [hundreds, tens, ones]
  }

  /** The words triplet_to_string collects for a valid `num`, in order. */
  function TripletWords(num: int): seq<Word>
    requires 1 <= num <= 999
  {
    var ds := Digits(num);
    Collected(ds, ds[1], 3)
  }

  function Sum(ws: seq<Word>): int
  {
    if |ws| == 0 then 0 else Sum(ws[..|ws| - 1]) + (if ws[|ws| - 1].Number? then ws[|ws| - 1].value else 0)
  }

  predicate AllNumbers(ws: seq<Word>)
  {
    forall i :: 0 <= i < |ws| ==> ws[i].Number? && IsTableValue(ws[i].value)
  }

  /** `triplet_to_string(num)`: ValueError exactly outside 1..999, otherwise
      the non-empty join of the words' texts. */
  function TripletText(num: int): (r: Outcome)
    ensures r.ValueError? <==> num < 1 || num > 999
    ensures r.ValueError? ==> r.arg == num
    ensures r.Ok? ==> |r.text| > 0
  {
    if num < 1 || num > 999 then ValueError(num)
    else
      TripletSpelling(num);
      WordsText(TripletWords(num));
      Ok(Join(Texts(TripletWords(num)), And))
  }

  /** The table words digit number `n` of a triplet contributes. */
  function DigitPart(n: int, d: int, tens: int): seq<Word>
  {
    match n
    case 0 => HundredsPart(d)
    case 1 => TensPart(d)
    case _ => OnesPart(tens, d)
  }

  /** The words the first `n` digits of `digits` contribute. */
  function Collected(digits: seq<int>, tens: int, n: nat): seq<Word>
    requires n <= |digits|
  {
    if n == 0 then [] else Collected(digits, tens, n - 1) + DigitPart(n - 1, digits[n - 1], tens)
  }

  lemma {:induction false} TextsAppend(a: seq<Word>, b: seq<Word>)
    ensures Texts(a + b) == Texts(a) + Texts(b)
  {
    assert |Texts(a + b)| == |Texts(a) + Texts(b)|;
    forall i | 0 <= i < |a + b|
      ensures Texts(a + b)[i] == (Texts(a) + Texts(b))[i]
    {
      if i < |a| {
        assert (a + b)[i] == a[i];
      } else {
        assert (a + b)[i] == b[i - |a|];
      }
    }
  }

  /** `triplet_to_string`: the three digits in a loop, each appending its table word. */
  method TripletToString(num: int) returns (r: Outcome)
    ensures r == TripletText(num)
  {
    if num < 1 || num > 999 {
      return ValueError(num);
    }
    var hundreds := num / 100;
    var tens := (num - hundreds * 100) / 10;
    var ones := num - (hundreds * 100 + tens * 10);
    var all := [hundreds, tens, ones];
    assert all == Digits(num);
    var strings: seq<string> := [];
    for n := 0 to 3
      invariant strings == Texts(Collected(all, tens, n))
    {
      var i := all[n];
      TextsAppend(Collected(all, tens, n), DigitPart(n, i, tens));
      match n {
        case 0 => strings := strings + Texts(HundredsPart(i));
        case 1 => strings := strings + Texts(TensPart(i));
        case _ => strings := strings + Texts(OnesPart(tens, i));
      }
    }
    r := Ok(Join(strings, And));
  }

  lemma {:induction false} SumAppend(a: seq<Word>, b: seq<Word>)
    ensures Sum(a + b) == Sum(a) + Sum(b)
  {
    if |b| > 0 {
      assert (a + b)[..|a + b| - 1] == a + b[..|b| - 1];
      SumAppend(a, b[..|b| - 1]);
    } else {
      assert a + b == a;
    }
  }

  /** The three digits of a triplet in 1..999: decimal digits, not all zero, that make it up. */
  lemma DigitsOf(num: int)
    requires 1 <= num <= 999
    ensures var ds := Digits(num);
      0 <= ds[0] <= 9 && 0 <= ds[1] <= 9 && 0 <= ds[2] <= 9
      && num == 100 * ds[0] + 10 * ds[1] + ds[2]
  {
  }

  /** The words of a triplet are the hundreds, tens and ones words in that order. */
  lemma TripletParts(num: int)
    requires 1 <= num <= 999
    ensures var ds := Digits(num);
      TripletWords(num) == HundredsPart(ds[0]) + TensPart(ds[1]) + OnesPart(ds[1], ds[2])
  {
    var ds := Digits(num);
    assert Collected(ds, ds[1], 1) == [] + HundredsPart(ds[0]);
    assert Collected(ds, ds[1], 2) == Collected(ds, ds[1], 1) + TensPart(ds[1]);
    assert Collected(ds, ds[1], 3) == Collected(ds, ds[1], 2) + OnesPart(ds[1], ds[2]);
  }

  /** Each table word stands for the value the digit contributes. */
  lemma PartValues(h: int, t: int, o: int)
    requires 0 <= h <= 9 && 0 <= t <= 9 && 0 <= o <= 9
    ensures Sum(HundredsPart(h)) == 100 * h && AllNumbers(HundredsPart(h))
    ensures Sum(TensPart(t)) == (if t >= 2 then 10 * t else 0) && AllNumbers(TensPart(t))
    ensures Sum(OnesPart(t, o)) == (if t == 1 then 10 + o else o) && AllNumbers(OnesPart(t, o))
    ensures |HundredsPart(h)| + |TensPart(t)| + |OnesPart(t, o)| <= 3
    ensures |HundredsPart(h)| + |TensPart(t)| + |OnesPart(t, o)| == 0 ==> h == 0 && t == 0 && o == 0
  {
  }

  /** The words triplet_to_string collects spell `num`: one to three table
      words whose values add up to `num`. */
  lemma TripletSpelling(num: int)
    requires 1 <= num <= 999
    ensures 1 <= |TripletWords(num)| <= 3
    ensures AllNumbers(TripletWords(num))
    ensures Sum(TripletWords(num)) == num
  {
    var ds := Digits(num);
    DigitsOf(num);
    TripletParts(num);
    var h, t, o := HundredsPart(ds[0]), TensPart(ds[1]), OnesPart(ds[1], ds[2]);
    PartValues(ds[0], ds[1], ds[2]);
    SumAppend(h, t);
    SumAppend(h + t, o);
    AllNumbersAppend(h, t);
    AllNumbersAppend(h + t, o);
  }

  lemma AllNumbersAppend(a: seq<Word>, b: seq<Word>)
    requires AllNumbers(a) && AllNumbers(b)
    ensures AllNumbers(a + b)
  {
  }

  /** The reverse of the word tables: the word a token of text stands for. */
  function ParseWord(tok: string): Option<Word>
  {
    match tok
    case "یک" => Some(Number(1))
    case "دو" => Some(Number(2))
    case "سه" => Some(Number(3))
    case "چهار" => Some(Number(4))
    case "پنج" => Some(Number(5))
    case "شش" => Some(Number(6))
    case "هفت" => Some(Number(7))
    case "هشت" => Some(Number(8))
    case "نه" => Some(Number(9))
    case "ده" => Some(Number(10))
    case "یازده" => Some(Number(11))
    case "دوازده" => Some(Number(12))
    case "سیزده" => Some(Number(13))
    case "چهارده" => Some(Number(14))
    case "پانزده" => Some(Number(15))
    case "شانزده" => Some(Number(16))
    case "هفده" => Some(Number(17))
    case "هجده" => Some(Number(18))
    case "نوزده" => Some(Number(19))
    case "بیست" => Some(Number(20))
    case "سی" => Some(Number(30))
    case "چهل" => Some(Number(40))
    case "پنجاه" => Some(Number(50))
    case "شصت" => Some(Number(60))
    case "هفتاد" => Some(Number(70))
    case "هشتاد" => Some(Number(80))
    case "نود" => Some(Number(90))
    case "صد" => Some(Number(100))
    case "دویست" => Some(Number(200))
    case "سیصد" => Some(Number(300))
    case "چهارصد" => Some(Number(400))
    case "پانصد" => Some(Number(500))
    case "ششصد" => Some(Number(600))
    case "هفتصد" => Some(Number(700))
    case "هشتصد" => Some(Number(800))
    case "نهصد" => Some(Number(900))
    case "میلیارد" => Some(Billion)
    case "میلیون" => Some(Million)
    case "هزار" => Some(Thousand)
    case "تریلیون" => Some(Trillion)
    case "و" => Some(Conjunction)
    case _ => None
  }

  /** The text of a word is a single non-empty token. */
  predicate Token(w: Word)
  {
    |Text(w)| > 0 && NoSpace(Text(w))
  }

  lemma UnitsRead(v: nat)
    requires 1 <= v <= 9
    ensures ParseWord(Text(Number(v))) == Some(Number(v)) && Token(Number(v))
  {
    match v
    case 1 => assert ParseWord("یک") == Some(Number(1));
    case 2 => assert ParseWord("دو") == Some(Number(2));
    case 3 => assert ParseWord("سه") == Some(Number(3));
    case 4 => assert ParseWord("چهار") == Some(Number(4));
    case 5 => assert ParseWord("پنج") == Some(Number(5));
    case 6 => assert ParseWord("شش") == Some(Number(6));
    case 7 => assert ParseWord("هفت") == Some(Number(7));
    case 8 => assert ParseWord("هشت") == Some(Number(8));
    case 9 => assert ParseWord("نه") == Some(Number(9));
  }

  lemma TeensRead(v: nat)
    requires 10 <= v <= 19
    ensures ParseWord(Text(Number(v))) == Some(Number(v)) && Token(Number(v))
  {
    match v
    case 10 => assert ParseWord("ده") == Some(Number(10));
    case 11 => assert ParseWord("یازده") == Some(Number(11));
    case 12 => assert ParseWord("دوازده") == Some(Number(12));
    case 13 => assert ParseWord("سیزده") == Some(Number(13));
    case 14 => assert ParseWord("چهارده") == Some(Number(14));
    case 15 => assert ParseWord("پانزده") == Some(Number(15));
    case 16 => assert ParseWord("شانزده") == Some(Number(16));
    case 17 => assert ParseWord("هفده") == Some(Number(17));
    case 18 => assert ParseWord("هجده") == Some(Number(18));
    case 19 => assert ParseWord("نوزده") == Some(Number(19));
  }

  lemma TensRead(v: nat)
    requires v in {20, 30, 40, 50, 60, 70, 80, 90}
    ensures ParseWord(Text(Number(v))) == Some(Number(v)) && Token(Number(v))
  {
    match v
    case 20 => assert ParseWord("بیست") == Some(Number(20));
    case 30 => assert ParseWord("سی") == Some(Number(30));
    case 40 => assert ParseWord("چهل") == Some(Number(40));
    case 50 => assert ParseWord("پنجاه") == Some(Number(50));
    case 60 => assert ParseWord("شصت") == Some(Number(60));
    case 70 => assert ParseWord("هفتاد") == Some(Number(70));
    case 80 => assert ParseWord("هشتاد") == Some(Number(80));
    case 90 => assert ParseWord("نود") == Some(Number(90));
  }

  lemma HundredsRead(v: nat)
    requires v in {100, 200, 300, 400}
    ensures ParseWord(Text(Number(v))) == Some(Number(v)) && Token(Number(v))
  {
    match v
    case 100 => assert ParseWord("صد") == Some(Number(100));
    case 200 => assert ParseWord("دویست") == Some(Number(200));
    case 300 => assert ParseWord("سیصد") == Some(Number(300));
    case 400 => assert ParseWord("چهارصد") == Some(Number(400));
  }

  lemma UpperHundredsRead(v: nat)
    requires v in {500, 600, 700, 800, 900}
    ensures ParseWord(Text(Number(v))) == Some(Number(v)) && Token(Number(v))
  {
    match v
    case 500 => assert ParseWord("پانصد") == Some(Number(500));
    case 600 => assert ParseWord("ششصد") == Some(Number(600));
    case 700 => assert ParseWord("هفتصد") == Some(Number(700));
    case 800 => assert ParseWord("هشتصد") == Some(Number(800));
    case 900 => assert ParseWord("نهصد") == Some(Number(900));
  }

  /** Every word reads back from its own text, and its text is one token. */
  lemma WordRead(w: Word)
    requires IsWord(w)
    ensures ParseWord(Text(w)) == Some(w) && Token(w)
  {
    match w
    case Number(v) =>
      if v <= 9 { UnitsRead(v); }
      else if v <= 19 { TeensRead(v); }
      else if v <= 90 { TensRead(v); }
      else if v <= 400 { HundredsRead(v); }
      else { UpperHundredsRead(v); }
    case Billion => assert ParseWord("میلیارد") == Some(Billion);
    case Million => assert ParseWord("میلیون") == Some(Million);
    case Thousand => assert ParseWord("هزار") == Some(Thousand);
    case Trillion => assert ParseWord("تریلیون") == Some(Trillion);
    case Conjunction => assert ParseWord("و") == Some(Conjunction);
  }

  lemma {:induction false} WordsText(ws: seq<Word>)
    requires forall i :: 0 <= i < |ws| ==> IsWord(ws[i])
    ensures forall i :: 0 <= i < |ws| ==> Token(ws[i]) && ParseWord(Text(ws[i])) == Some(ws[i])
    ensures |ws| > 0 ==> |Join(Texts(ws), And)| > 0
  {
    forall i | 0 <= i < |ws|
      ensures Token(ws[i]) && ParseWord(Text(ws[i])) == Some(ws[i])
    {
      WordRead(ws[i]);
    }
    if |ws| > 0 {
      assert |Texts(ws)[0]| > 0;
    }
  }
}

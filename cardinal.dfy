/** `persian_numeral_string`: a whole number spelled out in Persian words.
    The magnitude is cut into quadruplets of base-1000 groups; inside a
    quadruplet the groups carry "میلیارد" (10^9), "میلیون" (10^6), "هزار"
    (10^3) or nothing, and a quadruplet k places from the end is followed by
    k words "تریلیون" (10^12). Non-empty parts are joined with " و ". */
module Cardinal {
  import opened Strings
  import opened Grouping
  import opened Lexicon

  const Zero := "صفر"
  const Minus := "منفی"

  /** The scale word after the group in slot 0, 1 or 2 of a quadruplet:
      billion, million, thousand. Slot 3 has none. */
  function ScaleWord(slot: int): Word
    requires 0 <= slot <= 2
  {
    match slot
    case 0 => Billion
    case 1 => Million
    case _ => Thousand
  }

  /** `'{} w'.format(s)`: the text `s`, a space, and the scale word `w`. */
  function Scaled(s: string, w: Word): string
  {
    s + " " + Text(w)
  }

  /** The phrase for a non-zero group `t` in slot `slot`: its triplet text,
      then the slot's scale word after a space. */
  function SlotPhrase(t: int, slot: int): string
    requires 1 <= t <= 999
  {
    var s := TripletText(t).text;
    if 0 <= slot <= 2 then Scaled(s, ScaleWord(slot)) else s
  }

  /** What slot `slot` of `q` adds to `str_parts`: the phrase of a non-zero
      group, nothing for a zero group. */
  function SlotEntry(q: seq<int>, slot: nat): seq<string>
    requires slot < |q| && IsTriplet(q[slot])
  {
    if q[slot] > 0 then [SlotPhrase(q[slot], slot)] else []
  }

  function SlotEntries(q: seq<int>): seq<seq<string>>
    requires forall i :: 0 <= i < |q| ==> IsTriplet(q[i])
  {
    seq(|q|, i requires 0 <= i < |q| => SlotEntry(q, i))
  }

  /** The phrases of the non-zero groups of `q`, in slot order. */
  function SlotPhrases(q: seq<int>): seq<string>
    requires forall i :: 0 <= i < |q| ==> IsTriplet(q[i])
  {
    Concat(SlotEntries(q))
  }

  /** A space, then `k` words "تریلیون" separated by spaces. */
  function TrillionSuffix(k: nat): string
  {
    " " + Join(Copies(Text(Trillion), k), " ")
  }

  /** The part for quadruplet `q` with `k` quadruplets after it: its slot
      phrases joined with " و ", followed by the trillion suffix unless
      `k` is 0 or there is no phrase. */
  function QuadPart(q: seq<int>, k: nat): string
    requires forall i :: 0 <= i < |q| ==> IsTriplet(q[i])
  {
    var joined := Join(SlotPhrases(q), And);
    if k == 0 || |joined| == 0 then joined else joined + TrillionSuffix(k)
  }

  /** What quadruplet `q` with `k` quadruplets after it adds to
      `outer_str_parts`: its part when that is not empty. */
  function QuadEntry(q: seq<int>, k: nat): seq<string>
    requires forall i :: 0 <= i < |q| ==> IsTriplet(q[i])
  {
    var part := QuadPart(q, k);
    if |part| > 0 then [part] else []
  }

  function QuadEntries(qs: seq<seq<int>>): seq<seq<string>>
    requires AllTriplets(qs)
  {
    seq(|qs|, x requires 0 <= x < |qs| => QuadEntry(qs[x], |qs| - 1 - x))
  }

  /** The non-empty parts of the quadruplets of `qs`, in order. */
  function QuadParts(qs: seq<seq<int>>): seq<string>
    requires AllTriplets(qs)
  {
    Concat(QuadEntries(qs))
  }

  /** One round of the outer loop: the part of a quadruplet is built from
      its joined slot phrases and its trillion suffix, and kept when non-empty. */
  lemma QuadEntryOf(q: seq<int>, k: nat, joined: string, suffix: string)
    requires forall i :: 0 <= i < |q| ==> IsTriplet(q[i])
    requires joined == Join(SlotPhrases(q), And)
    requires suffix == TrillionSuffix(k)
    ensures var part := if k == 0 || |joined| == 0 then joined else joined + suffix;
      QuadEntry(q, k) == if |part| > 0 then [part] else []
  {
  }

  /** A quadruplet contributes a part exactly when one of its groups is not
      zero: a zero group adds no phrase, so an all-zero quadruplet adds
      neither " و " nor a scale word. */
  lemma QuadPartEmpty(q: seq<int>, k: nat)
    requires forall i :: 0 <= i < |q| ==> IsTriplet(q[i])
    ensures QuadEntry(q, k) == [] <==> forall i :: 0 <= i < |q| ==> q[i] == 0
  {
    var es := SlotEntries(q);
    ConcatEmptyIff(es);
    assert forall i :: 0 <= i < |q| ==> (es[i] == [] <==> q[i] == 0);
    assert forall i, j :: 0 <= i < |es| && 0 <= j < |es[i]| ==> es[i][j] != "";
    ConcatAll(es, (s: string) => s != "");
    var ps := SlotPhrases(q);
    if |ps| > 0 {
      assert |Join(ps, And)| >= |ps[0]|;
    }
  }

  /** The text `persian_numeral_string(num)` returns. */
  function NumeralString(num: int): string
  {
    if num == 0 then Zero
    else
      var prefix := if num < 0 then Minus + " " else "";
      var m := if num < 0 then -num else num;
      var qs := Quadruplets(m);
      prefix + Join(QuadParts(qs), And)
  }

  lemma NumeralStringNonZero(num: int, m: int, prefix: string)
    requires num != 0
    requires m == if num < 0 then -num else num
    requires prefix == if num < 0 then Minus + " " else ""
    ensures NumeralString(num) == prefix + Join(QuadParts(Quadruplets(m)), And)
  {
  }

  /** The inner loop of `persian_numeral_string`: one phrase per non-zero
      group of the quadruplet, in slot order. */
  method QuadStrParts(q: seq<int>) returns (strParts: seq<string>)
    requires |q| == 4 && forall i :: 0 <= i < |q| ==> IsTriplet(q[i])
    ensures strParts == SlotPhrases(q)
  {
    strParts := [];
    for slot := 0 to |q|
      invariant strParts == Concat(SlotEntries(q)[..slot])
    {
      var i := q[slot];
      ConcatNext(SlotEntries(q), slot);
      if i > 0 {
        var t := TripletToString(i);
        match slot {
          case 0 => strParts := strParts + [Scaled(t.text, Billion)];
          case 1 => strParts := strParts + [Scaled(t.text, Million)];
          case 2 => strParts := strParts + [Scaled(t.text, Thousand)];
          case 3 => strParts := strParts + [t.text];
        }
      }
    }
    assert SlotEntries(q)[..|q|] == SlotEntries(q);
  }

  /** The loop building the trillion words: `k` copies of "تریلیون". */
  method SuffixWords(k: int) returns (suffixArr: seq<string>)
    requires k >= 0
    ensures suffixArr == Copies(Text(Trillion), k)
  {
    suffixArr := [];
    for i := 0 to k
      invariant suffixArr == Copies(Text(Trillion), i)
    {
      suffixArr := suffixArr + [Text(Trillion)];
    }
  }

  /** `persian_numeral_string`: the sign and zero first, then for each
      quadruplet its slot phrases, its trillion suffix, and the part
      appended when it is not empty. */
  method PersianNumeralString(num: int) returns (s: string)
    ensures s == NumeralString(num)
  {
    var n := num;
    var prefix := "";
    if n < 0 {
      n := n * -1;
      prefix := Minus + " ";
    } else if n == 0 {
      return Zero;
    }
    var quints := GetQuadruplets(n);
    var outerStrParts: seq<string> := [];
    for x := 0 to |quints|
      invariant outerStrParts == Concat(QuadEntries(quints)[..x])
    {
      var strParts := QuadStrParts(quints[x]);
      var suffixCount := |quints| - 1 - x;
      var suffixArr := SuffixWords(suffixCount);
      var suffix := " " + Join(suffixArr, " ");
      var joined := Join(strParts, And);
      var part := if suffixCount == 0 || |joined| == 0 then joined else joined + suffix;
      ConcatNext(QuadEntries(quints), x);
      QuadEntryOf(quints[x], suffixCount, joined, suffix);
      if |part| > 0 {
        outerStrParts := outerStrParts + [part];
      }
    }
    assert QuadEntries(quints)[..|quints|] == QuadEntries(quints);
    NumeralStringNonZero(num, n, prefix);
    s := prefix + Join(outerStrParts, And);
  }

  /** A negative number is spelled as its magnitude after "منفی" and a space. */
  lemma NegativeCardinal(m: int, s: string)
    requires m > 0 && NumeralString(m) == s
    ensures NumeralString(-m) == Minus + " " + s
  {
  }

  /** A number with a single quadruplet has that quadruplet's entry as its parts. */
  lemma PartsOfOne(q: seq<int>)
    requires forall i :: 0 <= i < |q| ==> IsTriplet(q[i])
    ensures AllTriplets([q])
    ensures QuadParts([q]) == QuadEntry(q, 0)
  {
    assert AllTriplets([q]) by {
      forall x, j | 0 <= x < 1 && 0 <= j < |[q][x]|
        ensures IsTriplet([q][x][j])
      {
        assert [q][x] == q;
      }
    }
    var qes := QuadEntries([q]);
    assert |qes| == 1 && qes[0] == QuadEntry(q, 0);
    ConcatLast(qes);
  }

  /** A number below 1000 is a single group: its chunk is three zeros and
      the group. */
  lemma QuadrupletsOfGroup(t: int)
    requires 1 <= t <= 999
    ensures Quadruplets(t) == [[0, 0, 0, t]]
  {
    assert t / 1000 == 0 && t % 1000 == t;
    assert Triplets(t) == [t];
    assert Chunks([t]) == [Zeros(3) + [t]];
    assert Zeros(3) + [t] == [0, 0, 0, t];
  }

  lemma SlotsOfGroup(t: int)
    requires 1 <= t <= 999
    ensures SlotPhrases([0, 0, 0, t]) == [TripletText(t).text]
  {
    var es := SlotEntries([0, 0, 0, t]);
    assert es[0] == [] && es[1] == [] && es[2] == [];
    assert es[3] == [TripletText(t).text];
    ConcatLast(es);
  }

  /** The cardinal of a number in 1..999 is the text of `triplet_to_string`
      alone: no scale word, no trillion suffix, no " و " around it. */
  lemma CardinalOfGroup(t: int)
    requires 1 <= t <= 999
    ensures NumeralString(t) == TripletText(t).text
  {
    var q := [0, 0, 0, t];
    QuadrupletsOfGroup(t);
    EntryOfGroup(t);
    PartsOfOne(q);
    assert Join([TripletText(t).text], And) == TripletText(t).text;
  }

  lemma EntryOfGroup(t: int)
    requires 1 <= t <= 999
    ensures QuadEntry([0, 0, 0, t], 0) == [TripletText(t).text]
  {
    SlotsOfGroup(t);
    assert Join([TripletText(t).text], And) == TripletText(t).text;
  }
}

/** The words `persian_numeral_string` writes. Every phrase it builds is a
    run of table words, scale words and conjunctions, and its text is their
    texts separated by single spaces; this module names those words and
    proves the text is laid out that way. */
module Phrasing {
  import opened Strings
  import opened Grouping
  import opened Lexicon
  import opened Cardinal

  predicate Words(ws: seq<Word>)
  {
    forall i :: 0 <= i < |ws| ==> IsWord(ws[i])
  }

  /** `groups` one after another, the conjunction between neighbours. */
  function Conj(groups: seq<seq<Word>>): seq<Word>
  {
    if |groups| == 0 then []
    else if |groups| == 1 then groups[0]
    else Conj(groups[..|groups| - 1]) + [Conjunction] + groups[|groups| - 1]
  }

  /** Each word as a group of its own. */
  function Singles(ws: seq<Word>): (r: seq<seq<Word>>)
    ensures |r| == |ws| && forall i :: 0 <= i < |ws| ==> r[i] == [ws[i]]
  {
    seq(|ws|, i requires 0 <= i < |ws| => [ws[i]])
  }

  /** The words of `triplet_to_string(t)`: the table words with the conjunction between them. */
  function TripletGroup(t: int): seq<Word>
    requires 1 <= t <= 999
  {
    Conj(Singles(TripletWords(t)))
  }

  /** The words of the phrase for group `t` in slot `slot`. */
  function SlotWords(t: int, slot: int): seq<Word>
    requires 1 <= t <= 999
  {
    TripletGroup(t) + (if 0 <= slot <= 2 then [ScaleWord(slot)] else [])
  }

  /** The word group slot `slot` of `q` adds: the words of a non-zero group, nothing for 0. */
  function SlotGroupEntry(q: seq<int>, slot: nat): seq<seq<Word>>
    requires slot < |q| && IsTriplet(q[slot])
  {
    if q[slot] > 0 then [SlotWords(q[slot], slot)] else []
  }

  function SlotGroupEntries(q: seq<int>): seq<seq<seq<Word>>>
    requires forall i :: 0 <= i < |q| ==> IsTriplet(q[i])
  {
    seq(|q|, i requires 0 <= i < |q| => SlotGroupEntry(q, i))
  }

  /** The word groups of the non-zero groups of `q`, in slot order. */
  function SlotGroups(q: seq<int>): seq<seq<Word>>
    requires forall i :: 0 <= i < |q| ==> IsTriplet(q[i])
  {
    Concat(SlotGroupEntries(q))
  }

  function Trillions(k: nat): seq<Word>
  {
    seq(k, _ => Trillion)
  }

  /** The words of the part for quadruplet `q` with `k` quadruplets after it. */
  function QuadWords(q: seq<int>, k: nat): seq<Word>
    requires forall i :: 0 <= i < |q| ==> IsTriplet(q[i])
  {
    var ws := Conj(SlotGroups(q));
    if k == 0 || |ws| == 0 then ws else ws + Trillions(k)
  }

  /** The word group quadruplet `q` with `k` quadruplets after it adds, when it has words. */
  function QuadGroupEntry(q: seq<int>, k: nat): seq<seq<Word>>
    requires forall i :: 0 <= i < |q| ==> IsTriplet(q[i])
  {
    var ws := QuadWords(q, k);
    if |ws| > 0 then [ws] else []
  }

  function QuadGroupEntries(qs: seq<seq<int>>): seq<seq<seq<Word>>>
    requires AllTriplets(qs)
  {
    seq(|qs|, x requires 0 <= x < |qs| => QuadGroupEntry(qs[x], |qs| - 1 - x))
  }

  /** The word groups of the quadruplets that have words, in order. */
  function QuadGroups(qs: seq<seq<int>>): seq<seq<Word>>
    requires AllTriplets(qs)
  {
    Concat(QuadGroupEntries(qs))
  }

  /** The words spelling the magnitude `m`. */
  function NumeralWords(m: int): seq<Word>
  {
    var qs := Quadruplets(m);
    Conj(QuadGroups(qs))
  }

  /** The text of a run of words: their texts separated by single spaces. */
  function Spoken(ws: seq<Word>): string
  {
    Join(Texts(ws), " ")
  }

  /** Phrase i is group i spoken, and every group is a non-empty run of well-formed words. */
  predicate Paired(phrases: seq<string>, groups: seq<seq<Word>>)
  {
    |phrases| == |groups|
    && forall i :: 0 <= i < |groups| ==> |groups[i]| > 0 && Words(groups[i]) && phrases[i] == Spoken(groups[i])
  }

  /** Paired phrases and groups, one after the other, stay paired. */
  lemma PairedJoin(ps: seq<string>, gs: seq<seq<Word>>, ps2: seq<string>, gs2: seq<seq<Word>>)
    requires Paired(ps, gs) && Paired(ps2, gs2)
    ensures Paired(ps + ps2, gs + gs2)
  {
    forall i | 0 <= i < |gs + gs2|
      ensures |(gs + gs2)[i]| > 0 && Words((gs + gs2)[i]) && (ps + ps2)[i] == Spoken((gs + gs2)[i])
    {
      if i >= |gs| {
        assert (gs + gs2)[i] == gs2[i - |gs|] && (ps + ps2)[i] == ps2[i - |ps|];
      }
    }
  }

  /** Entries paired one for one concatenate to paired lists. */
  lemma {:induction false} PairedConcat(pe: seq<seq<string>>, ge: seq<seq<seq<Word>>>)
    requires |pe| == |ge|
    requires forall i :: 0 <= i < |pe| ==> Paired(pe[i], ge[i])
    ensures Paired(Concat(pe), Concat(ge))
  {
    var n := |pe|;
    if n > 0 {
      PairedConcat(pe[..n - 1], ge[..n - 1]);
      PairedJoin(Concat(pe[..n - 1]), Concat(ge[..n - 1]), pe[n - 1], ge[n - 1]);
    }
  }

  lemma WordsAppend(a: seq<Word>, b: seq<Word>)
    requires Words(a) && Words(b)
    ensures Words(a + b)
  {
  }

  /** Conjoined runs of well-formed words are well formed ("و" is a word). */
  lemma {:induction false} ConjWords(groups: seq<seq<Word>>)
    requires forall i :: 0 <= i < |groups| ==> Words(groups[i])
    ensures Words(Conj(groups))
  {
    var n := |groups|;
    if n > 1 {
      ConjWords(groups[..n - 1]);
      WordsAppend(Conj(groups[..n - 1]), [Conjunction]);
      WordsAppend(Conj(groups[..n - 1]) + [Conjunction], groups[n - 1]);
    }
  }

  /** Conjoining at least one non-empty group gives words. */
  lemma ConjNonEmpty(groups: seq<seq<Word>>)
    requires |groups| > 0 && |groups[0]| > 0
    ensures |Conj(groups)| > 0
  {
    if |groups| > 1 {
      ConjNonEmpty(groups[..|groups| - 1]);
    }
  }

  /** A run of words is spoken as a non-empty text exactly when it is non-empty. */
  lemma SpokenEmpty(ws: seq<Word>)
    requires Words(ws)
    ensures |Spoken(ws)| > 0 <==> |ws| > 0
  {
    if |ws| > 0 {
      WordRead(ws[0]);
      assert |Join(Texts(ws), " ")| >= |Texts(ws)[0]|;
    }
  }

  /** The texts of each group. */
  function TextGroups(groups: seq<seq<Word>>): (r: seq<seq<string>>)
    ensures |r| == |groups| && forall i :: 0 <= i < |groups| ==> r[i] == Texts(groups[i])
  {
    seq(|groups|, i requires 0 <= i < |groups| => Texts(groups[i]))
  }

  /** The texts of conjoined groups are the groups' texts interleaved with "و". */
  lemma {:induction false} TextsConj(groups: seq<seq<Word>>)
    ensures Texts(Conj(groups)) == Interleave(TextGroups(groups), Text(Conjunction))
  {
    var n := |groups|;
    if n > 1 {
      var init, last := groups[..n - 1], groups[n - 1];
      TextsConj(init);
      assert TextGroups(groups)[..n - 1] == TextGroups(init);
      TextsAppend(Conj(init), [Conjunction]);
      TextsAppend(Conj(init) + [Conjunction], last);
    }
  }

  /** Joining phrases with " و " speaks the groups with the conjunction between them. */
  lemma JoinConj(phrases: seq<string>, groups: seq<seq<Word>>)
    requires |phrases| == |groups|
    requires forall i :: 0 <= i < |groups| ==> |groups[i]| > 0 && phrases[i] == Spoken(groups[i])
    ensures Join(phrases, And) == Spoken(Conj(groups))
  {
    JoinInterleave(phrases, TextGroups(groups), Text(Conjunction));
    TextsConj(groups);
    assert And == " " + Text(Conjunction) + " ";
  }

  /** `triplet_to_string` speaks the triplet's words with the conjunction
      between them; there is at least one word and each is well formed. */
  lemma TripletLayout(t: int)
    requires 1 <= t <= 999
    ensures TripletText(t).text == Spoken(TripletGroup(t))
    ensures |TripletGroup(t)| > 0 && Words(TripletGroup(t))
  {
    var ws := TripletWords(t);
    TripletSpelling(t);
    forall i | 0 <= i < |ws|
      ensures Texts(ws)[i] == Spoken(Singles(ws)[i]) && Words(Singles(ws)[i])
    {
      assert Texts([ws[i]]) == [Text(ws[i])];
      assert IsWord(ws[i]);
    }
    JoinConj(Texts(ws), Singles(ws));
    ConjWords(Singles(ws));
    ConjNonEmpty(Singles(ws));
  }

  /** The phrase for a group in a slot is its words spoken; the words are
      at least one and all well formed. */
  lemma SlotLayout(t: int, slot: int)
    requires 1 <= t <= 999
    ensures SlotPhrase(t, slot) == Spoken(SlotWords(t, slot))
    ensures |SlotWords(t, slot)| > 0 && Words(SlotWords(t, slot))
  {
    var a := TripletGroup(t);
    TripletLayout(t);
    if 0 <= slot <= 2 {
      ScaledLayout(a, ScaleWord(slot));
    } else {
      assert a + [] == a;
    }
  }

  /** A scale word after a run of words is spoken after a space. */
  lemma ScaledLayout(a: seq<Word>, w: Word)
    requires |a| > 0
    ensures Scaled(Spoken(a), w) == Spoken(a + [w])
  {
    TextsAppend(a, [w]);
    JoinAppend(Texts(a), [Text(w)], " ");
  }

  /** The slot phrases are the slot groups spoken, one for one. */
  lemma SlotsLayout(q: seq<int>)
    requires forall i :: 0 <= i < |q| ==> IsTriplet(q[i])
    ensures Paired(SlotPhrases(q), SlotGroups(q))
  {
    var pe, ge := SlotEntries(q), SlotGroupEntries(q);
    forall i | 0 <= i < |q|
      ensures Paired(pe[i], ge[i])
    {
      if q[i] > 0 {
        SlotLayout(q[i], i);
      }
    }
    PairedConcat(pe, ge);
  }

  lemma {:induction false} TrillionsText(k: nat)
    ensures Texts(Trillions(k)) == Copies(Text(Trillion), k)
  {
    if k > 0 {
      TrillionsText(k - 1);
      assert Trillions(k) == Trillions(k - 1) + [Trillion];
      TextsAppend(Trillions(k - 1), [Trillion]);
    }
  }

  /** A run of words followed by `k` trillion words, as `persian_numeral_string`
      lays out a part: the suffix is added only to a non-empty run and only
      when `k` is positive. */
  lemma TrillionLayout(joined: string, ws: seq<Word>, k: nat)
    requires joined == Spoken(ws) && Words(ws)
    ensures var part := if k == 0 || |joined| == 0 then joined else joined + TrillionSuffix(k);
      var words := if k == 0 || |ws| == 0 then ws else ws + Trillions(k);
      part == Spoken(words) && Words(words) && (|part| > 0 <==> |words| > 0)
  {
    SpokenEmpty(ws);
    if k > 0 && |ws| > 0 {
      var ts := Trillions(k);
      TextsAppend(ws, ts);
      TrillionsText(k);
      JoinAppend(Texts(ws), Texts(ts), " ");
      Assoc(joined, " ", Join(Texts(ts), " "));
      assert joined + TrillionSuffix(k) == Spoken(ws + ts);
      WordsAppend(ws, ts);
    }
  }

  /** The part for a quadruplet is its words spoken, and it is empty exactly
      when it has no words. */
  lemma QuadLayout(q: seq<int>, k: nat)
    requires forall i :: 0 <= i < |q| ==> IsTriplet(q[i])
    ensures QuadPart(q, k) == Spoken(QuadWords(q, k))
    ensures Words(QuadWords(q, k))
    ensures |QuadPart(q, k)| > 0 <==> |QuadWords(q, k)| > 0
  {
    SlotsLayout(q);
    JoinConj(SlotPhrases(q), SlotGroups(q));
    ConjWords(SlotGroups(q));
    TrillionLayout(Join(SlotPhrases(q), And), Conj(SlotGroups(q)), k);
  }

  /** The last word of conjoined groups is the last word of the last group. */
  lemma ConjLast(groups: seq<seq<Word>>)
    requires |groups| > 0 && |groups[|groups| - 1]| > 0
    ensures var ws, g := Conj(groups), groups[|groups| - 1];
      |ws| > 0 && ws[|ws| - 1] == g[|g| - 1]
  {
  }

  /** The phrase of a non-zero group ends in a table word or a scale word, never "تریلیون". */
  lemma SlotWordsEnd(t: int, slot: int)
    requires 1 <= t <= 999
    ensures var ws := SlotWords(t, slot); |ws| > 0 && ws[|ws| - 1] != Trillion
  {
    TripletSpelling(t);
    var ss := Singles(TripletWords(t));
    ConjLast(ss);
  }

  /** The slot groups of a quadruplet with a non-zero group `q[i]`: at least
      one, and none ends in "تریلیون". */
  lemma SlotGroupsEnd(q: seq<int>, i: int)
    requires forall j :: 0 <= j < |q| ==> IsTriplet(q[j])
    requires 0 <= i < |q| && q[i] != 0
    ensures var gs := SlotGroups(q);
      |gs| > 0 && forall j :: 0 <= j < |gs| ==> |gs[j]| > 0 && gs[j][|gs[j]| - 1] != Trillion
  {
    var es := SlotGroupEntries(q);
    ConcatEmptyIff(es);
    assert es[i] != [];
    forall x, j | 0 <= x < |es| && 0 <= j < |es[x]|
      ensures |es[x][j]| > 0 && es[x][j][|es[x][j]| - 1] != Trillion
    {
      SlotWordsEnd(q[x], x);
    }
    ConcatAll(es, (g: seq<Word>) => |g| > 0 && g[|g| - 1] != Trillion);
  }

  /** A quadruplet with a non-zero group and `k` quadruplets after it ends
      in exactly `k` words "تریلیون". */
  lemma TrillionCount(q: seq<int>, k: nat, i: int)
    requires forall j :: 0 <= j < |q| ==> IsTriplet(q[j])
    requires 0 <= i < |q| && q[i] != 0
    ensures var ws := QuadWords(q, k);
      QuadPart(q, k) == Spoken(ws)
      && |ws| > k && ws[|ws| - k..] == Trillions(k) && ws[|ws| - k - 1] != Trillion
  {
    QuadLayout(q, k);
    QuadWordsEnd(q, k, i);
  }

  lemma QuadWordsEnd(q: seq<int>, k: nat, i: int)
    requires forall j :: 0 <= j < |q| ==> IsTriplet(q[j])
    requires 0 <= i < |q| && q[i] != 0
    ensures var ws := QuadWords(q, k);
      |ws| > k && ws[|ws| - k..] == Trillions(k) && ws[|ws| - k - 1] != Trillion
  {
    var gs := SlotGroups(q);
    SlotGroupsEnd(q, i);
    ConjLast(gs);
    var ws := Conj(gs);
    assert QuadWords(q, k) == if k == 0 then ws else ws + Trillions(k);
    TrillionsAfter(ws, k);
  }

  /** Words not ending in "تریلیون", then `k` words "تریلیون". */
  lemma TrillionsAfter(ws: seq<Word>, k: nat)
    requires |ws| > 0 && ws[|ws| - 1] != Trillion
    ensures var r := if k == 0 then ws else ws + Trillions(k);
      |r| > k && r[|r| - k..] == Trillions(k) && r[|r| - k - 1] != Trillion
  {
    if k == 0 {
      assert ws[|ws|..] == [] == Trillions(0);
    } else {
      var r := ws + Trillions(k);
      assert r[|r| - k..] == Trillions(k);
      assert r[|r| - k - 1] == ws[|ws| - 1];
    }
  }

  /** A quadruplet's entry and its word-group entry are both empty, or its
      part and its words. */
  lemma EntryPaired(qs: seq<seq<int>>, x: int)
    requires AllTriplets(qs) && 0 <= x < |qs|
    ensures Paired(QuadEntries(qs)[x], QuadGroupEntries(qs)[x])
  {
    var q, k := qs[x], |qs| - 1 - x;
    QuadLayout(q, k);
    assert Paired(QuadEntry(q, k), QuadGroupEntry(q, k));
  }

  /** The parts are the quadruplet groups spoken, one for one. */
  lemma QuadsLayout(qs: seq<seq<int>>)
    requires AllTriplets(qs)
    ensures Paired(QuadParts(qs), QuadGroups(qs))
  {
    var pe, ge := QuadEntries(qs), QuadGroupEntries(qs);
    forall x | 0 <= x < |qs|
      ensures Paired(pe[x], ge[x])
    {
      EntryPaired(qs, x);
    }
    PairedConcat(pe, ge);
  }

  /** `persian_numeral_string` of a positive number speaks its words, and
      a negative number is "منفی" followed by the words of its magnitude. */
  lemma NumeralLayout(m: int)
    requires m > 0
    ensures NumeralString(m) == Spoken(NumeralWords(m))
    ensures NumeralString(-m) == Minus + " " + Spoken(NumeralWords(m))
    ensures Words(NumeralWords(m))
  {
    var qs := Quadruplets(m);
    QuadsLayout(qs);
    JoinConj(QuadParts(qs), QuadGroups(qs));
    ConjWords(QuadGroups(qs));
    assert "" + Spoken(NumeralWords(m)) == Spoken(NumeralWords(m));
  }
}

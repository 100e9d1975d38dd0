/** Cardinals and ordinals of particular numbers, worked out from the
    definitions: a two-word group, a scale word, and a trillion suffix. */
module Samples {
  import opened Strings
  import opened Grouping
  import opened Lexicon
  import opened Cardinal
  import opened Ordinal

  lemma ConcatFour<T>(a: seq<T>, b: seq<T>, c: seq<T>, d: seq<T>)
    ensures Concat([a, b, c, d]) == a + b + c + d
  {
    assert [a, b, c, d][..3] == [a, b, c] && [a, b, c][..2] == [a, b] && [a, b][..1] == [a];
    assert Concat([a]) == a by {
      assert [a][..0] == [];
    }
    assert Concat([a, b]) == a + b;
    assert Concat([a, b, c]) == a + b + c;
  }

  lemma ConcatTwo<T>(a: seq<T>, b: seq<T>)
    ensures Concat([a, b]) == a + b
  {
    assert [a, b][..1] == [a];
    assert Concat([a]) == a by {
      assert [a][..0] == [];
    }
  }

  /** The slot phrases of a quadruplet, one slot at a time. */
  lemma SlotsOfFour(q: seq<int>)
    requires |q| == 4 && forall i :: 0 <= i < 4 ==> IsTriplet(q[i])
    ensures SlotPhrases(q) == SlotEntry(q, 0) + SlotEntry(q, 1) + SlotEntry(q, 2) + SlotEntry(q, 3)
  {
    var es := SlotEntries(q);
    assert es == [SlotEntry(q, 0), SlotEntry(q, 1), SlotEntry(q, 2), SlotEntry(q, 3)];
    ConcatFour(es[0], es[1], es[2], es[3]);
  }

  /** The two words of a group, joined with " و ". */
  lemma TwoWordText(t: int, v: nat, w: nat)
    requires 1 <= t <= 999 && TripletWords(t) == [Number(v), Number(w)]
    ensures TripletText(t).text == NumberText(v) + And + NumberText(w)
  {
    var ws := [Number(v), Number(w)];
    assert ws[..1] == [Number(v)] && ws[..1][..0] == [];
    assert Texts(ws) == [NumberText(v), NumberText(w)];
    assert Join([NumberText(v), NumberText(w)], And) == NumberText(v) + And + NumberText(w) by {
      assert [NumberText(v), NumberText(w)][1..] == [NumberText(w)];
    }
  }

  /** A group whose only word is the table word for `v`. */
  lemma OneWordText(t: int, v: nat)
    requires 1 <= t <= 999 && TripletWords(t) == [Number(v)]
    ensures TripletText(t).text == NumberText(v)
  {
    assert Texts([Number(v)]) == [NumberText(v)];
  }

  lemma WordsOfThirtyThree()
    ensures TripletWords(33) == [Number(30), Number(3)]
  {
    TripletParts(33);
    assert 33 / 100 == 0 && 33 / 10 == 3;
    var ds := Digits(33);
    assert ds[0] == 0 && ds[1] == 3 && ds[2] == 3;
  }

  lemma TextOfThirtyThree()
    ensures TripletText(33).text == "سی و سه"
  {
    WordsOfThirtyThree();
    TwoWordText(33, 30, 3);
  }

  /** 33 is "سی و سه". */
  lemma CardinalThirtyThree()
    ensures NumeralString(33) == "سی و سه"
  {
    CardinalOfGroup(33);
    TextOfThirtyThree();
  }

  /** 33 has the space before "سه", so both ordinals rewrite it: "سی و سوم". */
  lemma OrdinalThirtyThree()
    ensures OrdinalAsWritten(33) == "سی و سوم"
    ensures Ordinal.Ordinal(33) == "سی و سوم"
    ensures CountingOrdinalAsWritten(33) == "سی و سومین"
  {
    CardinalThirtyThree();
    var s := "سی و سه";
    assert EndsWith(s, " " + Three);
    assert s[..|s| - 2] + Third == "سی و سوم";
    OrdinalAgrees(33);
  }

  lemma TextOfOne()
    ensures TripletText(1).text == "یک"
  {
    TripletParts(1);
    assert 1 / 100 == 0 && 1 / 10 == 0;
    OneWordText(1, 1);
  }

  lemma TextOfThree()
    ensures TripletText(3).text == "سه"
  {
    TripletParts(3);
    assert 3 / 100 == 0 && 3 / 10 == 0;
    OneWordText(3, 3);
  }

  lemma TextOfTen()
    ensures TripletText(10).text == "ده"
  {
    TripletParts(10);
    assert 10 / 100 == 0 && 10 / 10 == 1;
    OneWordText(10, 10);
  }

  lemma QuadrupletsOfThreeThousandThree()
    ensures Quadruplets(3003) == [[0, 0, 3, 3]]
  {
    assert 3003 / 1000 == 3 && 3003 % 1000 == 3 && 3 / 1000 == 0;
    assert Triplets(3) == [3];
    assert Triplets(3003) == [3, 3];
    assert Chunks([3, 3]) == [Zeros(2) + [3, 3]];
    assert Zeros(2) + [3, 3] == [0, 0, 3, 3];
  }

  lemma ThousandsOfThree()
    ensures SlotEntry([0, 0, 3, 3], 2) == ["سه هزار"]
  {
    TextOfThree();
    assert "سه" + " " + "هزار" == "سه هزار";
  }

  lemma SlotsOfThreeThousandThree()
    ensures SlotPhrases([0, 0, 3, 3]) == ["سه هزار", "سه"]
  {
    var q := [0, 0, 3, 3];
    SlotsOfFour(q);
    ThousandsOfThree();
    TextOfThree();
    assert SlotEntry(q, 0) == [] && SlotEntry(q, 1) == [];
    assert SlotEntry(q, 3) == ["سه"];
  }

  lemma PartOfThreeThousandThree()
    ensures QuadEntry([0, 0, 3, 3], 0) == ["سه هزار و سه"]
  {
    SlotsOfThreeThousandThree();
    assert Join(["سه هزار", "سه"], And) == "سه هزار و سه";
  }

  /** 3003 is "سه هزار و سه": the thousands group takes "هزار", and the
      parts are joined with " و ". */
  lemma CardinalThreeThousandThree()
    ensures NumeralString(3003) == "سه هزار و سه"
  {
    var q := [0, 0, 3, 3];
    QuadrupletsOfThreeThousandThree();
    PartOfThreeThousandThree();
    PartsOfOne(q);
    assert Join(["سه هزار و سه"], And) == "سه هزار و سه";
  }

  const TenMillionTrillionOne := 10000000000000000001

  lemma TripletsOfTenMillionTrillionOne()
    ensures Triplets(TenMillionTrillionOne) == [10, 0, 0, 0, 0, 0, 1]
  {
    var n6 := TenMillionTrillionOne;
    var n5, n4, n3, n2, n1 := 10000000000000000, 10000000000000, 10000000000, 10000000, 10000;
    assert n6 / 1000 == n5 && n6 % 1000 == 1;
    assert n5 / 1000 == n4 && n5 % 1000 == 0;
    assert n4 / 1000 == n3 && n4 % 1000 == 0;
    assert n3 / 1000 == n2 && n3 % 1000 == 0;
    assert n2 / 1000 == n1 && n2 % 1000 == 0;
    assert n1 / 1000 == 10 && n1 % 1000 == 0;
    assert 10 / 1000 == 0 && 10 % 1000 == 10;
    assert Triplets(10) == [10];
    assert Triplets(n1) == [10, 0];
    assert Triplets(n2) == [10, 0, 0];
    assert Triplets(n3) == [10, 0, 0, 0];
    assert Triplets(n4) == [10, 0, 0, 0, 0];
    assert Triplets(n5) == [10, 0, 0, 0, 0, 0];
  }

  lemma QuadrupletsOfTenMillionTrillionOne()
    ensures Quadruplets(TenMillionTrillionOne) == [[0, 10, 0, 0], [0, 0, 0, 1]]
  {
    TripletsOfTenMillionTrillionOne();
    var ts := [10, 0, 0, 0, 0, 0, 1];
    assert ts[..3] == [10, 0, 0] && ts[3..] == [0, 0, 0, 1];
    assert Chunks([10, 0, 0]) == [Zeros(1) + [10, 0, 0]];
    assert Zeros(1) + [10, 0, 0] == [0, 10, 0, 0];
  }

  lemma MillionsOfTen()
    ensures SlotEntry([0, 10, 0, 0], 1) == ["ده میلیون"]
  {
    TextOfTen();
    assert "ده" + " " + "میلیون" == "ده میلیون";
  }

  lemma SlotsOfTenMillion()
    ensures SlotPhrases([0, 10, 0, 0]) == ["ده میلیون"]
  {
    var q := [0, 10, 0, 0];
    SlotsOfFour(q);
    MillionsOfTen();
    assert SlotEntry(q, 0) == [] && SlotEntry(q, 2) == [] && SlotEntry(q, 3) == [];
  }

  lemma PartOfTenMillion()
    ensures QuadEntry([0, 10, 0, 0], 1) == ["ده میلیون تریلیون"]
  {
    SlotsOfTenMillion();
    assert Join(["ده میلیون"], And) == "ده میلیون";
    assert TrillionSuffix(1) == " تریلیون" by {
      assert Copies("تریلیون", 1) == ["تریلیون"];
    }
    assert "ده میلیون" + " تریلیون" == "ده میلیون تریلیون";
  }

  lemma PartOfOne()
    ensures QuadEntry([0, 0, 0, 1], 0) == ["یک"]
  {
    var q := [0, 0, 0, 1];
    TextOfOne();
    SlotsOfFour(q);
    assert SlotEntry(q, 0) == [] && SlotEntry(q, 1) == [] && SlotEntry(q, 2) == [];
    assert SlotEntry(q, 3) == ["یک"];
  }

  /** Two quadruplets: the front one's entry, with one quadruplet after
      it, then the last one's. */
  lemma PartsOfTwo(q0: seq<int>, q1: seq<int>)
    requires forall i :: 0 <= i < |q0| ==> IsTriplet(q0[i])
    requires forall i :: 0 <= i < |q1| ==> IsTriplet(q1[i])
    ensures AllTriplets([q0, q1])
    ensures QuadParts([q0, q1]) == QuadEntry(q0, 1) + QuadEntry(q1, 0)
  {
    assert AllTriplets([q0, q1]) by {
      forall x, j | 0 <= x < 2 && 0 <= j < |[q0, q1][x]|
        ensures IsTriplet([q0, q1][x][j])
      {
      }
    }
    var es := QuadEntries([q0, q1]);
    assert |es| == 2 && es[0] == QuadEntry(q0, 1) && es[1] == QuadEntry(q1, 0);
    assert es == [es[0], es[1]];
    ConcatTwo(es[0], es[1]);
  }

  lemma PartsOfTenMillionTrillionOne()
    ensures QuadParts([[0, 10, 0, 0], [0, 0, 0, 1]]) == ["ده میلیون تریلیون", "یک"]
  {
    PartsOfTwo([0, 10, 0, 0], [0, 0, 0, 1]);
    PartOfTenMillion();
    PartOfOne();
  }

  /** 10^19 + 1 is "ده میلیون تریلیون و یک": the front quadruplet has one
      quadruplet after it, so its part ends in one "تریلیون". */
  lemma CardinalTenMillionTrillionOne()
    ensures NumeralString(TenMillionTrillionOne) == "ده میلیون تریلیون و یک"
  {
    QuadrupletsOfTenMillionTrillionOne();
    PartsOfTenMillionTrillionOne();
    assert Join(["ده میلیون تریلیون", "یک"], And) == "ده میلیون تریلیون و یک";
  }

  /** -(10^19 + 1) takes "منفی" and a space in front. */
  lemma CardinalMinusTenMillionTrillionOne()
    ensures NumeralString(-TenMillionTrillionOne) == "منفی ده میلیون تریلیون و یک"
  {
    CardinalTenMillionTrillionOne();
    NegativeCardinal(TenMillionTrillionOne, "ده میلیون تریلیون و یک");
    MinusTenMillionTrillionOneText();
  }

  lemma MinusTenMillionTrillionOneText()
    ensures Minus + " " + "ده میلیون تریلیون و یک" == "منفی ده میلیون تریلیون و یک"
  {
  }
}

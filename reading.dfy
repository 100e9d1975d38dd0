/** A reader for the text `persian_numeral_string` writes. It is the
    partner the cardinal is checked against: the text splits back into the
    words it speaks, the words read back to a value, and that value is the
    number spelled. So the spelling is correct and no two numbers share one. */
module Reading {
  import opened Strings
  import opened Grouping
  import opened Lexicon
  import opened Cardinal
  import opened Phrasing

  /** 10^12, what "تریلیون" multiplies by. */
  const Tera := 1_000_000_000_000

  function Pow(b: int, e: nat): int
  {
    if e == 0 then 1 else Pow(b, e - 1) * b
  }

  /** `v` moved up `k` places of 10^12, that is v * 10^(12k). */
  function Shift(v: int, k: nat): int
  {
    if k == 0 then v else Shift(v, k - 1) * Tera
  }

  lemma {:induction false} ShiftAdd(a: int, b: int, k: nat)
    ensures Shift(a, k) + Shift(b, k) == Shift(a + b, k)
  {
    if k > 0 {
      ShiftAdd(a, b, k - 1);
    }
  }

  lemma {:induction false} ShiftUp(a: int, k: nat)
    ensures Shift(a, k + 1) == Shift(a * Tera, k)
  {
    if k > 0 {
      ShiftUp(a, k - 1);
    }
  }

  /** What a scale word multiplies the group before it by. */
  function Scale(w: Word): int
  {
    match w
    case Billion => 1_000_000_000
    case Million => 1_000_000
    case Thousand => 1000
    case _ => 1
  }

  /** The reader's state after some words: `total` holds the finished
      quadruplets, `pending` the last quadruplet with its trillions (added to
      `total` at the next "و"), `quad` the scaled groups of the quadruplet
      being read, and `triplet` the group being read. */
  datatype Reading = Reading(total: int, pending: int, quad: int, triplet: int)

  const Start := Reading(0, 0, 0, 0)

  function Value(st: Reading): int
  {
    st.total + st.pending + st.quad + st.triplet
  }

  /** Reading one more word. */
  function Step(st: Reading, w: Word): Reading
  {
    match w
    case Number(v) => st.(triplet := st.triplet + v)
    case Trillion => Reading(st.total, (st.pending + st.quad + st.triplet) * Tera, 0, 0)
    case Conjunction => st.(total := st.total + st.pending, pending := 0)
    case _ => st.(quad := st.quad + st.triplet * Scale(w), triplet := 0)
  }

  function Run(st: Reading, ws: seq<Word>): Reading
  {
    if |ws| == 0 then st else Step(Run(st, ws[..|ws| - 1]), ws[|ws| - 1])
  }

  /** The words the tokens stand for, or None when one of them is not a word. */
  function ParseWords(toks: seq<string>): Option<seq<Word>>
  {
    if |toks| == 0 then Some([])
    else
      match (ParseWords(toks[..|toks| - 1]), ParseWord(toks[|toks| - 1]))
      case (Some(ws), Some(w)) => Some(ws + [w])
      case _ => None
  }

  function Read(toks: seq<string>): Option<int>
  {
    match ParseWords(toks)
    case Some(ws) => Some(Value(Run(Start, ws)))
    case None => None
  }

  /** The number a cardinal text stands for: "صفر", or "منفی" and the words
      of the magnitude, or the words of a positive number. */
  function ParseCardinal(s: string): Option<int>
  {
    var toks := Split(s, ' ');
    if toks == [Zero] then Some(0)
    else if |toks| > 1 && toks[0] == Minus then
      match Read(toks[1..])
      case Some(v) => Some(-v)
      case None => None
    else Read(toks)
  }

  lemma {:induction false} RunAppend(st: Reading, a: seq<Word>, b: seq<Word>)
    ensures Run(st, a + b) == Run(Run(st, a), b)
  {
    if |b| == 0 {
      assert a + b == a;
    } else {
      assert (a + b)[..|a + b| - 1] == a + b[..|b| - 1];
      RunAppend(st, a, b[..|b| - 1]);
    }
  }

  lemma RunOne(st: Reading, w: Word)
    ensures Run(st, [w]) == Step(st, w)
  {
    assert [w][..0] == [];
  }

  /** What is already committed only rides along: reading from a larger
      total ends with the total larger by as much. */
  lemma {:induction false} RunTotal(st: Reading, ws: seq<Word>, d: int)
    ensures Run(st.(total := st.total + d), ws) == Run(st, ws).(total := Run(st, ws).total + d)
  {
    if |ws| > 0 {
      RunTotal(st, ws[..|ws| - 1], d);
    }
  }

  /** Reading conjoined groups: the last group is read after the rest and a "و". */
  lemma ConjRun(st: Reading, gs: seq<seq<Word>>, g: seq<Word>)
    ensures Run(st, Conj(gs + [g]))
         == if |gs| == 0 then Run(st, g) else Run(Step(Run(st, Conj(gs)), Conjunction), g)
  {
    if |gs| == 0 {
      assert gs + [g] == [g];
    } else {
      assert (gs + [g])[..|gs|] == gs;
      RunAppend(st, Conj(gs) + [Conjunction], g);
      RunAppend(st, Conj(gs), [Conjunction]);
      RunOne(Run(st, Conj(gs)), Conjunction);
    }
  }

  /** The words of a triplet, "و" between them, add up to the triplet's value
      when nothing is pending. */
  lemma {:induction false} TripletRun(st: Reading, ws: seq<Word>)
    requires st.pending == 0 && AllNumbers(ws)
    ensures Run(st, Conj(Singles(ws))) == st.(triplet := st.triplet + Sum(ws))
  {
    var n := |ws|;
    if n > 0 {
      var init, w := ws[..n - 1], ws[n - 1];
      assert Singles(ws) == Singles(init) + [[w]];
      TripletRun(st, init);
      ConjRun(st, Singles(init), [w]);
      var mid := Run(st, Conj(Singles(init)));
      RunOne(if n == 1 then st else Step(mid, Conjunction), w);
    }
  }

  /** The value the scale word of `slot` stands for. */
  function SlotScale(slot: int): int
    requires 0 <= slot <= 2
  {
    Scale(ScaleWord(slot))
  }

  /** Reading the words of `triplet_to_string(t)` adds `t` to the group in progress. */
  lemma TripletGroupRun(st: Reading, t: int)
    requires st.pending == 0 && 1 <= t <= 999
    ensures Run(st, TripletGroup(t)) == st.(triplet := st.triplet + t)
  {
    TripletSpelling(t);
    TripletRun(st, TripletWords(t));
  }

  /** Reading the phrase of a non-zero group: its scaled value goes into the
      quadruplet, or, in the last slot, it stays the group being read. */
  lemma SlotRun(st: Reading, t: int, slot: int)
    requires st.pending == 0 && st.triplet == 0
    requires 1 <= t <= 999 && 0 <= slot <= 3
    ensures Run(st, SlotWords(t, slot))
         == if slot <= 2 then st.(quad := st.quad + t * SlotScale(slot)) else st.(triplet := t)
  {
    var g := TripletGroup(t);
    TripletGroupRun(st, t);
    if slot <= 2 {
      RunAppend(st, g, [ScaleWord(slot)]);
      RunOne(st.(triplet := t), ScaleWord(slot));
    } else {
      assert g + [] == g;
    }
  }

  /** The scaled groups among the first `m` slots (the last slot is not scaled). */
  function SlotsScaled(q: seq<int>, m: nat): int
    requires m <= |q| == 4
  {
    if m == 0 then 0
    else SlotsScaled(q, m - 1) + (if m - 1 <= 2 then q[m - 1] * SlotScale(m - 1) else 0)
  }

  /** Reading `g` from a state with no group in progress does what reading
      the phrase of group `t` in slot `slot` does. */
  ghost predicate SlotEffect(g: seq<Word>, t: int, slot: int)
    requires 0 <= slot <= 3
  {
    forall st: Reading {:trigger Run(st, g)} :: st.pending == 0 && st.triplet == 0 ==>
      Run(st, g) == if slot <= 2 then st.(quad := st.quad + t * SlotScale(slot)) else st.(triplet := t)
  }

  /** Entry `i` of `es` is empty for a zero group and otherwise one phrase read as group `q[i]` in slot `i`. */
  ghost predicate SlotEntriesRead(q: seq<int>, es: seq<seq<seq<Word>>>)
  {
    |q| == 4 && |es| == 4
    && forall i :: 0 <= i < 4 ==>
      (q[i] == 0 && es[i] == []) || (q[i] > 0 && |es[i]| == 1 && SlotEffect(es[i][0], q[i], i))
  }

  lemma SlotEntriesHold(q: seq<int>)
    requires |q| == 4
    requires forall i :: 0 <= i < |q| ==> IsTriplet(q[i])
    ensures SlotEntriesRead(q, SlotGroupEntries(q))
  {
    forall i | 0 <= i < 4
      ensures (q[i] == 0 && SlotGroupEntries(q)[i] == [])
        || (q[i] > 0 && |SlotGroupEntries(q)[i]| == 1 && SlotEffect(SlotGroupEntries(q)[i][0], q[i], i))
    {
      if q[i] > 0 {
        forall st: Reading | st.pending == 0 && st.triplet == 0
          ensures Run(st, SlotWords(q[i], i))
               == if i <= 2 then st.(quad := st.quad + q[i] * SlotScale(i)) else st.(triplet := q[i])
        {
          SlotRun(st, q[i], i);
        }
      }
    }
  }

  /** One more non-zero slot: its phrase is read after a "و" that changes nothing. */
  lemma SlotsStep(st: Reading, gs: seq<seq<Word>>, g: seq<Word>, t: int, slot: int, mid: Reading)
    requires 0 <= slot <= 3
    requires mid == Run(st, Conj(gs)) && mid.pending == 0 && mid.triplet == 0
    requires SlotEffect(g, t, slot)
    ensures Run(st, Conj(gs + [g]))
         == if slot <= 2 then mid.(quad := mid.quad + t * SlotScale(slot)) else mid.(triplet := t)
  {
    ConjRun(st, gs, g);
    if |gs| > 0 {
      assert Step(mid, Conjunction) == mid;
    }
  }

  /** Reading the phrases of the first `m` slots, "و" between them. */
  lemma {:induction false} SlotsRun(q: seq<int>, es: seq<seq<seq<Word>>>, m: nat, total: int)
    requires SlotEntriesRead(q, es) && m <= 4
    ensures Run(Reading(total, 0, 0, 0), Conj(Concat(es[..m])))
         == Reading(total, 0, SlotsScaled(q, m), if m == 4 then q[3] else 0)
  {
    if m > 0 {
      var st := Reading(total, 0, 0, 0);
      SlotsRun(q, es, m - 1, total);
      ConcatNext(es, m - 1);
      var gs := Concat(es[..m - 1]);
      if q[m - 1] > 0 {
        var g := es[m - 1][0];
        assert es[m - 1] == [g];
        SlotsStep(st, gs, g, q[m - 1], m - 1, Run(st, Conj(gs)));
      } else {
        assert gs + [] == gs;
      }
    }
  }

  /** A quadruplet's value: its scaled groups plus its last group. */
  lemma HornerQuad(q: seq<int>)
    requires |q| == 4
    ensures Horner(q) == SlotsScaled(q, 4) + q[3]
  {
    assert q[..1][..0] == [];
    assert q[..2][..1] == q[..1];
    assert q[..3][..2] == q[..2];
    assert q[..3] == q[..|q| - 1];
    assert Horner(q[..1]) == q[0];
    assert Horner(q[..2]) == q[0] * 1000 + q[1];
    assert Horner(q[..3]) == q[0] * 1_000_000 + q[1] * 1000 + q[2];
    assert Horner(q) == q[0] * 1_000_000_000 + q[1] * 1_000_000 + q[2] * 1000 + q[3];
    assert SlotScale(0) == 1_000_000_000 && SlotScale(1) == 1_000_000 && SlotScale(2) == 1000;
    assert SlotsScaled(q, 1) == q[0] * 1_000_000_000;
    assert SlotsScaled(q, 2) == q[0] * 1_000_000_000 + q[1] * 1_000_000;
    assert SlotsScaled(q, 3) == q[0] * 1_000_000_000 + q[1] * 1_000_000 + q[2] * 1000;
  }

  /** `k` words "تریلیون" move everything not yet committed up `k` places of 10^12. */
  lemma {:induction false} TrillionsRun(st: Reading, k: nat)
    requires k > 0
    ensures Run(st, Trillions(k)) == Reading(st.total, Shift(st.pending + st.quad + st.triplet, k), 0, 0)
  {
    if k == 1 {
      assert Trillions(1) == [Trillion];
      RunOne(st, Trillion);
    } else {
      assert Trillions(k) == Trillions(k - 1) + [Trillion];
      TrillionsRun(st, k - 1);
      RunAppend(st, Trillions(k - 1), [Trillion]);
      var x := st.pending + st.quad + st.triplet;
      RunOne(Reading(st.total, Shift(x, k - 1), 0, 0), Trillion);
    }
  }

  /** `r` is what reading a part worth `h` at place `k` leaves after `total`:
      the value moved up `k` places of 10^12 is added and, for positive `k`,
      no group or quadruplet is left in progress. */
  predicate QuadRead(r: Reading, total: int, h: int, k: nat)
  {
    r.total == total && r.pending + r.quad + r.triplet == Shift(h, k)
    && (k > 0 ==> r.quad == 0 && r.triplet == 0)
  }

  /** The part of a quadruplet: its slot phrases conjoined, then `k` trillions
      when there is something to scale. */
  lemma QuadRun(q: seq<int>, k: nat, slots: seq<Word>, ws: seq<Word>)
    requires |q| == 4
    requires Run(Start, slots) == Reading(0, 0, SlotsScaled(q, 4), q[3])
    requires ws == if k == 0 || |slots| == 0 then slots else slots + Trillions(k)
    ensures QuadRead(Run(Start, ws), 0, Horner(q), k)
    ensures |ws| == 0 ==> Horner(q) == 0
  {
    HornerQuad(q);
    if k > 0 && |slots| > 0 {
      RunAppend(Start, slots, Trillions(k));
      TrillionsRun(Run(Start, slots), k);
    } else if k > 0 {
      assert Run(Start, slots) == Start;
      ShiftAdd(0, 0, k);
    }
  }

  /** An entry of a list of parts read from the start: no part and the value
      0, or one part worth `v` that commits nothing itself and, unless it is
      the last, leaves no group or quadruplet in progress. */
  predicate EntryReads(e: seq<seq<Word>>, v: int, last: bool)
  {
    |e| <= 1
    && (|e| == 0 ==> v == 0)
    && (|e| == 1 ==>
          Run(Start, e[0]).total == 0 && Value(Run(Start, e[0])) == v
          && (!last ==> Run(Start, e[0]).quad == 0 && Run(Start, e[0]).triplet == 0))
  }

  ghost predicate EntriesRead(es: seq<seq<seq<Word>>>, vs: seq<int>)
  {
    |es| == |vs| && forall x :: 0 <= x < |es| ==> EntryReads(es[x], vs[x], x == |es| - 1)
  }

  /** The value of each quadruplet at its place. */
  function QuadValues(qs: seq<seq<int>>): seq<int>
  {
    seq(|qs|, x requires 0 <= x < |qs| => Shift(Horner(qs[x]), |qs| - 1 - x))
  }

  /** The entry of quadruplet `q` with `k` quadruplets after it is read as
      its value at its place. */
  lemma QuadEntryHolds(q: seq<int>, k: nat, e: seq<seq<Word>>, v: int, last: bool)
    requires |q| == 4
    requires forall i :: 0 <= i < |q| ==> IsTriplet(q[i])
    requires e == QuadGroupEntry(q, k) && v == Shift(Horner(q), k) && last == (k == 0)
    ensures EntryReads(e, v, last)
  {
    var es := SlotGroupEntries(q);
    SlotEntriesHold(q);
    SlotsRun(q, es, 4, 0);
    assert es[..4] == es;
    QuadRun(q, k, Conj(SlotGroups(q)), QuadWords(q, k));
    if |QuadWords(q, k)| == 0 {
      ShiftZero(k);
    }
  }

  lemma QuadEntriesHold(qs: seq<seq<int>>)
    requires AllTriplets(qs) && forall y :: 0 <= y < |qs| ==> |qs[y]| == 4
    ensures EntriesRead(QuadGroupEntries(qs), QuadValues(qs))
  {
    var es, vs := QuadGroupEntries(qs), QuadValues(qs);
    forall x | 0 <= x < |qs|
      ensures EntryReads(es[x], vs[x], x == |es| - 1)
    {
      QuadEntryHolds(qs[x], |qs| - 1 - x, es[x], vs[x], x == |es| - 1);
    }
  }

  /** The quadruplets read as base-10^12 digits. */
  function QuadsValue(qs: seq<seq<int>>): int
  {
    if |qs| == 0 then 0 else QuadsValue(qs[..|qs| - 1]) * Tera + Horner(qs[|qs| - 1])
  }

  function SumOf(vs: seq<int>): int
  {
    if |vs| == 0 then 0 else SumOf(vs[..|vs| - 1]) + vs[|vs| - 1]
  }

  /** `r` has read the value `v` and, when `settled`, has no group or
      quadruplet in progress. */
  predicate ConjRead(r: Reading, v: int, settled: bool)
  {
    Value(r) == v && (settled ==> r.quad == 0 && r.triplet == 0)
  }

  lemma CommittedRead(part: Reading, r: Reading, v: int, w: int, settled: bool)
    requires r == part.(total := v) && part.total == 0 && Value(part) == w
    requires settled ==> part.quad == 0 && part.triplet == 0
    ensures ConjRead(r, v + w, settled)
  {
  }

  /** One more part: after a "و" commits the value `v` read so far, the
      part read from the start adds its own value. */
  lemma PartStep(gs: seq<seq<Word>>, ws: seq<Word>, v: int)
    requires ConjRead(Run(Start, Conj(gs)), v, true)
    requires Run(Start, ws).total == 0
    ensures Run(Start, Conj(gs + [ws])) == Run(Start, ws).(total := v)
  {
    ConjRun(Start, gs, ws);
    if |gs| == 0 {
      assert Conj(gs) == [];
    } else {
      CommitRun(Run(Start, Conj(gs)), ws, v);
    }
  }

  /** After a "و" commits everything read, a further part is read as from
      the start with that value already committed. */
  lemma CommitRun(mid: Reading, ws: seq<Word>, v: int)
    requires Value(mid) == v && mid.quad == 0 && mid.triplet == 0
    ensures Run(Step(mid, Conjunction), ws) == Run(Start, ws).(total := Run(Start, ws).total + v)
  {
    assert Step(mid, Conjunction) == Start.(total := Start.total + v);
    RunTotal(Start, ws, v);
  }

  /** Reading the parts of the first `x` entries, "و" between them, sums their
      values; before the last entry nothing is left in progress. */
  lemma {:induction false} EntriesRun(es: seq<seq<seq<Word>>>, vs: seq<int>, x: nat)
    requires EntriesRead(es, vs) && x <= |es|
    ensures ConjRead(Run(Start, Conj(Concat(es[..x]))), SumOf(vs[..x]), x < |es|)
  {
    if x > 0 {
      EntriesRun(es, vs, x - 1);
      EntryOf(es, vs, x);
      EntryStep(Concat(es[..x - 1]), es[x - 1], Concat(es[..x]),
        SumOf(vs[..x - 1]), vs[x - 1], SumOf(vs[..x]), x == |es|);
    } else {
      assert es[..0] == [] && vs[..0] == [];
      assert Conj([]) == [];
    }
  }

  /** The first `x` entries and their values are the first `x - 1` and
      entry `x - 1`. */
  lemma EntryOf(es: seq<seq<seq<Word>>>, vs: seq<int>, x: nat)
    requires EntriesRead(es, vs) && 0 < x <= |es|
    ensures Concat(es[..x]) == Concat(es[..x - 1]) + es[x - 1]
    ensures SumOf(vs[..x]) == SumOf(vs[..x - 1]) + vs[x - 1]
    ensures EntryReads(es[x - 1], vs[x - 1], x == |es|)
  {
    ConcatNext(es, x - 1);
    assert vs[..x][..x - 1] == vs[..x - 1];
  }

  /** One more entry `e` read after parts `gs` that are settled at value
      `v`: an empty entry adds nothing, and a part adds its own value `w`. */
  lemma EntryStep(gs: seq<seq<Word>>, e: seq<seq<Word>>, all: seq<seq<Word>>,
                  v: int, w: int, sum: int, last: bool)
    requires all == gs + e && sum == v + w
    requires ConjRead(Run(Start, Conj(gs)), v, true)
    requires EntryReads(e, w, last)
    ensures ConjRead(Run(Start, Conj(all)), sum, !last)
  {
    if |e| == 0 {
      AppendEmpty(gs, e);
    } else {
      Single(e);
      PartStep(gs, e[0], v);
      CommittedRead(Run(Start, e[0]), Run(Start, Conj(all)), v, w, !last);
    }
  }

  lemma {:induction false} ShiftZero(k: nat)
    ensures Shift(0, k) == 0
  {
    if k > 0 {
      ShiftZero(k - 1);
    }
  }

  lemma ShiftStep(a: int, h: int, k: nat)
    ensures Shift(a, k + 1) + Shift(h, k) == Shift(a * Tera + h, k)
  {
    ShiftUp(a, k);
    ShiftAdd(a * Tera, h, k);
  }

  /** The quadruplet values at their places add up to the quadruplets read
      as base-10^12 digits, shifted past the quadruplets not yet added. */
  lemma {:induction false} ShiftedSum(qs: seq<seq<int>>, x: nat)
    requires x <= |qs|
    ensures SumOf(QuadValues(qs)[..x]) == Shift(QuadsValue(qs[..x]), |qs| - x)
  {
    var vs := QuadValues(qs);
    if x > 0 {
      ShiftedSum(qs, x - 1);
      assert vs[..x][..x - 1] == vs[..x - 1];
      assert qs[..x][..x - 1] == qs[..x - 1];
      ShiftStep(QuadsValue(qs[..x - 1]), Horner(qs[x - 1]), |qs| - x);
    } else {
      assert vs[..0] == [] && qs[..0] == [];
      ShiftZero(|qs|);
    }
  }

  lemma {:induction false} HornerAppend(a: seq<int>, b: seq<int>)
    ensures Horner(a + b) == Horner(a) * Pow(1000, |b|) + Horner(b)
  {
    if |b| > 0 {
      assert (a + b)[..|a + b| - 1] == a + b[..|b| - 1];
      HornerAppend(a, b[..|b| - 1]);
      var h, p := Horner(a), Pow(1000, |b| - 1);
      assert h * p * 1000 == h * (p * 1000);
    } else {
      assert a + b == a;
    }
  }

  lemma {:induction false} HornerZeros(k: nat)
    ensures Horner(Zeros(k)) == 0
  {
    if k > 0 {
      assert Zeros(k)[..k - 1] == Zeros(k - 1);
      HornerZeros(k - 1);
    }
  }

  /** Chunks of four base-1000 digits read as base-10^12 digits give the same value. */
  lemma {:induction false} QuadsValueConcat(cs: seq<seq<int>>)
    requires forall y :: 0 <= y < |cs| ==> |cs[y]| == 4
    ensures QuadsValue(cs) == Horner(Concat(cs))
  {
    if |cs| > 0 {
      var init := cs[..|cs| - 1];
      QuadsValueConcat(init);
      HornerAppend(Concat(init), cs[|cs| - 1]);
      assert Pow(1000, 4) == Tera;
    }
  }

  /** The words of a positive number read back to that number. */
  lemma NumeralValue(m: int)
    requires m > 0
    ensures Value(Run(Start, NumeralWords(m))) == m
  {
    var qs := Quadruplets(m);
    var ts := Triplets(m);
    var es := QuadGroupEntries(qs);
    QuadEntriesHold(qs);
    EntriesRun(es, QuadValues(qs), |qs|);
    ShiftedSum(qs, |qs|);
    assert qs[..|qs|] == qs;
    assert es[..|qs|] == es;
    assert QuadValues(qs)[..|qs|] == QuadValues(qs);
    QuadsValueConcat(qs);
    ChunksConcat(ts);
    HornerAppend(Zeros(Padding(ts)), ts);
    HornerZeros(Padding(ts));
    TripletsValue(m);
  }

  lemma ParseWordsStep(a: seq<string>, t: string, init: seq<Word>, w: Word)
    requires ParseWords(a) == Some(init) && ParseWord(t) == Some(w)
    ensures ParseWords(a + [t]) == Some(init + [w])
  {
    assert (a + [t])[..|a|] == a;
  }

  lemma {:induction false} ParseTexts(ws: seq<Word>)
    requires Words(ws)
    ensures ParseWords(Texts(ws)) == Some(ws)
  {
    var n := |ws|;
    if n > 0 {
      var init, w := ws[..n - 1], ws[n - 1];
      assert Texts(ws) == Texts(init) + [Text(w)];
      ParseTexts(init);
      WordRead(w);
      ParseWordsStep(Texts(init), Text(w), init, w);
      InitLast(ws);
    }
  }

  /** The tokens of spoken words are the words' texts. */
  lemma SpokenSplit(ws: seq<Word>)
    requires Words(ws) && |ws| > 0
    ensures Split(Spoken(ws), ' ') == Texts(ws)
  {
    forall i | 0 <= i < |ws|
      ensures ' ' !in Texts(ws)[i]
    {
      WordRead(ws[i]);
    }
    SplitJoin(Texts(ws), ' ');
  }

  /** No word is written "صفر" or "منفی". */
  lemma NotSign(w: Word)
    requires IsWord(w)
    ensures Text(w) != Zero && Text(w) != Minus
  {
    WordRead(w);
    assert ParseWord(Zero) == None;
    assert ParseWord(Minus) == None;
  }

  /** The texts of well-formed words worth a positive `m`: at least one, the
      first not a sign word, and they read back to `m`. */
  lemma TokensRead(ws: seq<Word>, m: int)
    requires Words(ws) && m > 0 && Value(Run(Start, ws)) == m
    ensures |Texts(ws)| > 0 && Texts(ws)[0] != Zero && Texts(ws)[0] != Minus
    ensures Read(Texts(ws)) == Some(m)
  {
    assert |ws| > 0;
    NotSign(ws[0]);
    ParseTexts(ws);
  }

  /** Splitting "منفی", a space and a spoken run gives "منفی" and the words' texts. */
  lemma MinusSplit(ws: seq<Word>)
    requires Words(ws) && |ws| > 0
    ensures Split(Minus + " " + Spoken(ws), ' ') == [Minus] + Texts(ws)
  {
    SpokenSplit(ws);
    SplitNoSep(Minus, ' ');
    SplitSep(Minus, Spoken(ws), ' ');
    assert Minus + " " + Spoken(ws) == Minus + [' '] + Spoken(ws);
  }

  /** A text whose tokens start with neither sign word reads as its tokens. */
  lemma UnsignedRead(s: string, toks: seq<string>, m: int)
    requires Split(s, ' ') == toks && |toks| > 0 && toks[0] != Zero && toks[0] != Minus
    requires Read(toks) == Some(m)
    ensures ParseCardinal(s) == Some(m)
  {
  }

  /** A text whose tokens are "منفی" and more reads as minus those. */
  lemma SignedRead(s: string, toks: seq<string>, m: int)
    requires Split(s, ' ') == [Minus] + toks && |toks| > 0
    requires Read(toks) == Some(m)
    ensures ParseCardinal(s) == Some(-m)
  {
    assert ([Minus] + toks)[1..] == toks;
  }

  /** Well-formed words worth a positive `m`, spoken, read back to `m`, and
      after "منفی" to `-m`. */
  lemma SpokenRead(ws: seq<Word>, m: int)
    requires Words(ws) && m > 0 && Value(Run(Start, ws)) == m
    ensures ParseCardinal(Spoken(ws)) == Some(m)
    ensures ParseCardinal(Minus + " " + Spoken(ws)) == Some(-m)
  {
    TokensRead(ws, m);
    SpokenSplit(ws);
    UnsignedRead(Spoken(ws), Texts(ws), m);
    MinusSplit(ws);
    SignedRead(Minus + " " + Spoken(ws), Texts(ws), m);
  }

  /** Reading what `persian_numeral_string` writes gives back the number. */
  lemma CardinalRoundTrip(n: int)
    ensures ParseCardinal(NumeralString(n)) == Some(n)
  {
    if n == 0 {
      SplitNoSep(Zero, ' ');
    } else {
      var m := if n < 0 then -n else n;
      NumeralLayout(m);
      NumeralValue(m);
      SpokenRead(NumeralWords(m), m);
    }
  }

  /** Different numbers are spelled differently. */
  lemma NumeralStringInjective(a: int, b: int)
    requires NumeralString(a) == NumeralString(b)
    ensures a == b
  {
    CardinalRoundTrip(a);
    CardinalRoundTrip(b);
  }
}

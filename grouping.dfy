/** `get_triplets` and `get_quadruplets`: the base-1000 groups of a magnitude,
    and those groups cut into chunks of four aligned at the least-significant end. */
module Grouping {
  import opened Strings

  /** Value of `ds` read as base-1000 digits, most significant first. */
  function Horner(ds: seq<int>): int
  {
    if |ds| == 0 then 0 else Horner(ds[..|ds| - 1]) * 1000 + ds[|ds| - 1]
  }

  predicate IsTriplet(d: int)
  {
    0 <= d <= 999
  }

  /** The groups `get_triplets(n)` returns: most significant first, none when n <= 0. */
  function Triplets(n: int): (r: seq<int>)
    ensures n <= 0 <==> r == []
    ensures forall i :: 0 <= i < |r| ==> IsTriplet(r[i])
    ensures n > 0 ==> r[0] != 0
    decreases if n > 0 then n else 0
  {
    if n <= 0 then [] else Triplets(n / 1000) + [n % 1000]
  }

  /** `get_triplets`: repeatedly prepends the last base-1000 group and drops it. */
  method GetTriplets(num: int) returns (res: seq<int>)
    ensures res == Triplets(num)
  {
    res := [];
    var n := num;
    while n > 0
      invariant Triplets(num) == Triplets(n) + res
      decreases n
    {
      var next := n / 1000;
      var triplet := n - next * 1000;
      res := [triplet] + res;
      n := next;
    }
  }

  lemma {:induction false} TripletsValue(n: int)
    requires n >= 0
    ensures Horner(Triplets(n)) == n
  {
    if n > 0 {
      TripletsValue(n / 1000);
      var t := Triplets(n);
      assert t[..|t| - 1] == Triplets(n / 1000);
    }
  }

  lemma {:induction false} HornerBounds(ds: seq<int>)
    requires forall i :: 0 <= i < |ds| ==> IsTriplet(ds[i])
    ensures Horner(ds) >= 0
    ensures |ds| > 0 && ds[0] != 0 ==> Horner(ds) > 0
  {
    if |ds| > 0 {
      HornerBounds(ds[..|ds| - 1]);
    }
  }

  /** get_triplets is the only way to write a number in base-1000 groups without a leading zero group. */
  lemma {:induction false} TripletsOfHorner(ds: seq<int>)
    requires forall i :: 0 <= i < |ds| ==> IsTriplet(ds[i])
    requires |ds| > 0 ==> ds[0] != 0
    ensures Triplets(Horner(ds)) == ds
  {
    if |ds| > 0 {
      var init := ds[..|ds| - 1];
      HornerBounds(ds);
      HornerBounds(init);
      TripletsOfHorner(init);
      var m := Horner(ds);
      assert m / 1000 == Horner(init) && m % 1000 == ds[|ds| - 1];
    }
  }

  function Zeros(k: nat): (r: seq<int>)
  {
    seq(k, _ => 0)
  }

  /** The chunks `get_quadruplets` cuts `ts` into: cut four at a time from
      the end, the front chunk left-padded with zeros. */
  function Chunks(ts: seq<int>): (r: seq<seq<int>>)
    ensures |r| == (|ts| + 3) / 4
    ensures forall x :: 0 <= x < |r| ==> |r[x]| == 4
  {
    if |ts| == 0 then []
    else if |ts| <= 4 then [Zeros(4 - |ts|) + ts]
    else Chunks(ts[..|ts| - 4]) + [ts[|ts| - 4..]]
  }

  /** Every group of every chunk is a base-1000 digit. */
  predicate AllTriplets(qs: seq<seq<int>>)
  {
    forall x, j :: 0 <= x < |qs| && 0 <= j < |qs[x]| ==> IsTriplet(qs[x][j])
  }

  /** `get_quadruplets(n)` */
  function Quadruplets(n: int): (r: seq<seq<int>>)
    ensures AllTriplets(r)
    ensures forall x :: 0 <= x < |r| ==> |r[x]| == 4
  {
    ChunksTriplets(Triplets(n));
    Chunks(Triplets(n))
  }

  /** Cutting groups into chunks (and padding with zeros) keeps every entry a group. */
  lemma {:induction false} ChunksTriplets(ts: seq<int>)
    requires forall i :: 0 <= i < |ts| ==> IsTriplet(ts[i])
    ensures AllTriplets(Chunks(ts))
  {
    if |ts| > 4 {
      ChunksTriplets(ts[..|ts| - 4]);
    }
  }

  /** How many zeros pad the front chunk of `Chunks(ts)`. */
  function Padding(ts: seq<int>): int
  {
    4 * ((|ts| + 3) / 4) - |ts|
  }

  /** `get_quadruplets`: pops up to four groups at a time off the end of the
      triplets, padding with zeros once they run out. */
  method GetQuadruplets(num: int) returns (res: seq<seq<int>>)
    ensures res == Quadruplets(num)
  {
    var triplets := GetTriplets(num);
    ghost var all := triplets;
    res := [];
    while |triplets| > 0
      invariant Chunks(all) == Chunks(triplets) + res
      decreases |triplets|
    {
      var inner: seq<int> := [];
      ghost var before := triplets;
      for i := 0 to 4
        invariant |triplets| == if |before| >= i then |before| - i else 0
        invariant triplets == before[..|triplets|]
        invariant inner == Zeros(i - (|before| - |triplets|)) + before[|triplets|..]
      {
        if |triplets| == 0 {
          PadStep(before, inner, i);
          inner := [0] + inner;
        } else {
          PopStep(before, triplets, inner, i);
          var n := triplets[|triplets| - 1];
          triplets := triplets[..|triplets| - 1];
          inner := [n] + inner;
        }
      }
      ChunkPopped(before, triplets, inner);
      res := [inner] + res;
    }
  }

  /** Once the groups have run out, one more zero goes to the front. */
  lemma PadStep(before: seq<int>, inner: seq<int>, i: int)
    requires |before| <= i
    requires inner == Zeros(i - |before|) + before
    ensures [0] + inner == Zeros(i + 1 - |before|) + before
  {
    assert [0] + Zeros(i - |before|) == Zeros(i + 1 - |before|);
  }

  /** Popping the last remaining group puts it at the front of the chunk. */
  lemma PopStep(before: seq<int>, rest: seq<int>, inner: seq<int>, i: int)
    requires 0 <= i && |rest| > 0 && |rest| == |before| - i
    requires rest == before[..|rest|]
    requires inner == Zeros(i - (|before| - |rest|)) + before[|rest|..]
    ensures var left := rest[..|rest| - 1];
      left == before[..|left|]
      && [rest[|rest| - 1]] + inner == Zeros(i + 1 - (|before| - |left|)) + before[|left|..]
  {
    var k := |rest| - 1;
    assert before[k..] == [before[k]] + before[|rest|..];
  }

  /** Four groups popped off the end of `before` (zeros once it runs out)
      are its last chunk, and what is left has the chunks before it. */
  lemma ChunkPopped(before: seq<int>, rest: seq<int>, inner: seq<int>)
    requires |before| > 0
    requires |rest| == if |before| >= 4 then |before| - 4 else 0
    requires rest == before[..|rest|]
    requires inner == Zeros(4 - (|before| - |rest|)) + before[|rest|..]
    ensures Chunks(before) == Chunks(rest) + [inner]
  {
    if |before| > 4 {
      assert Zeros(0) + before[|before| - 4..] == before[|before| - 4..];
    }
  }

  /** Chunk x is the x-th block of four of the padded groups. */
  lemma {:induction false} ChunkAt(ts: seq<int>, x: int)
    requires 0 <= x < |Chunks(ts)|
    ensures Chunks(ts)[x] == (Zeros(Padding(ts)) + ts)[4 * x .. 4 * x + 4]
  {
    if |ts| > 4 {
      var init := ts[..|ts| - 4];
      assert Padding(init) == Padding(ts);
      var padded := Zeros(Padding(ts)) + init;
      assert Zeros(Padding(ts)) + ts == padded + ts[|ts| - 4..];
      if x < |Chunks(init)| {
        ChunkAt(init, x);
      }
    }
  }

  /** Flattening the chunks gives the groups behind the front padding. */
  lemma {:induction false} ChunksConcat(ts: seq<int>)
    ensures Concat(Chunks(ts)) == Zeros(Padding(ts)) + ts
  {
    if |ts| > 4 {
      var init := ts[..|ts| - 4];
      var cs := Chunks(ts);
      assert cs[..|cs| - 1] == Chunks(init);
      ChunksConcat(init);
      assert Padding(init) == Padding(ts);
      assert init + ts[|ts| - 4..] == ts;
    } else if |ts| > 0 {
      var cs := Chunks(ts);
      assert cs[..|cs| - 1] == [];
    }
  }

  /** The chunks of get_quadruplets(n), flattened, are get_triplets(n)
      behind fewer than four padding zeros. */
  lemma QuadrupletsConcat(n: int)
    ensures Concat(Quadruplets(n)) == Zeros(Padding(Triplets(n))) + Triplets(n)
    ensures 0 <= Padding(Triplets(n)) < 4
    ensures n <= 0 <==> Quadruplets(n) == []
  {
    ChunksConcat(Triplets(n));
  }
}

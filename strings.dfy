/** Models of the Python `str` built-ins the library leans on: `sep.join(parts)`,
    `s.replace(a, b)` with one-character arguments, `s.endswith(suffix)`, and
    lists appended one after another. `Split` is not one of them: it is the
    tokenizer of the cardinal reader in `Reading`, which splits a text at
    its spaces. */
module Strings {

  /** `sep.join(parts)` */
  function Join(parts: seq<string>, sep: string): string
  {
    if |parts| == 0 then ""
    else if |parts| == 1 then parts[0]
    else parts[0] + sep + Join(parts[1..], sep)
  }

  /** The fields of `s` between occurrences of `c`, empty fields kept. */
  function Split(s: string, c: char): (r: seq<string>)
    ensures |r| > 0
  {
    if |s| == 0 then [""]
    else
      var rest := Split(s[1..], c);
      if s[0] == c then [""] + rest else [[s[0]] + rest[0]] + rest[1..]
  }

  /** `s.replace(a, b)` for one-character `a` and `b`. */
  function Replace(s: string, a: char, b: char): string
  {
    seq(|s|, i requires 0 <= i < |s| => if s[i] == a then b else s[i])
  }

  /** `s.endswith(suffix)` */
  predicate EndsWith(s: string, suffix: string)
  {
    |suffix| <= |s| && s[|s| - |suffix|..] == suffix
  }

  /** `k` copies of `w`, as a loop appending `w` k times builds them. */
  function Copies(w: string, k: nat): seq<string>
  {
    if k == 0 then [] else Copies(w, k - 1) + [w]
  }

  /** The groups of `groups` one after the other, `mark` between neighbours. */
  function Interleave(groups: seq<seq<string>>, mark: string): seq<string>
  {
    if |groups| == 0 then []
    else if |groups| == 1 then groups[0]
    else Interleave(groups[..|groups| - 1], mark) + [mark] + groups[|groups| - 1]
  }

  /** The lists of `xss` one after the other, as a loop that appends what
      each step contributes builds them. */
  function Concat<T>(xss: seq<seq<T>>): seq<T>
  {
    if |xss| == 0 then [] else Concat(xss[..|xss| - 1]) + xss[|xss| - 1]
  }

  lemma ConcatNext<T>(xss: seq<seq<T>>, n: nat)
    requires n < |xss|
    ensures Concat(xss[..n + 1]) == Concat(xss[..n]) + xss[n]
  {
    assert xss[..n + 1][..n] == xss[..n];
  }

  /** Lists that are all empty but the last one flatten to that one. */
  lemma {:induction false} ConcatLast<T>(xss: seq<seq<T>>)
    requires |xss| > 0
    requires forall i :: 0 <= i < |xss| - 1 ==> xss[i] == []
    ensures Concat(xss) == xss[|xss| - 1]
  {
    if |xss| > 1 {
      ConcatEmpty(xss[..|xss| - 1]);
    }
  }

  lemma {:induction false} ConcatEmpty<T>(xss: seq<seq<T>>)
    requires forall i :: 0 <= i < |xss| ==> xss[i] == []
    ensures Concat(xss) == []
  {
    if |xss| > 0 {
      ConcatEmpty(xss[..|xss| - 1]);
    }
  }

  /** What holds of every element of every list holds of every element of their flattening. */
  lemma {:induction false} ConcatAll<T>(xss: seq<seq<T>>, p: T -> bool)
    requires forall i, j :: 0 <= i < |xss| && 0 <= j < |xss[i]| ==> p(xss[i][j])
    ensures forall j :: 0 <= j < |Concat(xss)| ==> p(Concat(xss)[j])
  {
    if |xss| > 0 {
      ConcatAll(xss[..|xss| - 1], p);
    }
  }

  /** A flattened list is empty exactly when every list in it is. */
  lemma {:induction false} ConcatEmptyIff<T>(xss: seq<seq<T>>)
    ensures Concat(xss) == [] <==> forall i :: 0 <= i < |xss| ==> xss[i] == []
  {
    if |xss| > 0 {
      ConcatEmptyIff(xss[..|xss| - 1]);
      assert forall i :: 0 <= i < |xss| - 1 ==> xss[..|xss| - 1][i] == xss[i];
    }
  }

  /** The facts below are stated apart so that the proofs using them do
      not reason about sequence equality in a crowded context. */
  lemma Single<T>(e: seq<T>)
    requires |e| == 1
    ensures e == [e[0]]
  {
  }

  lemma InitLast<T>(s: seq<T>)
    requires |s| > 0
    ensures s[..|s| - 1] + [s[|s| - 1]] == s
  {
  }

  lemma AppendEmpty<T>(a: seq<T>, e: seq<T>)
    requires |e| == 0
    ensures a + e == a
  {
  }

  lemma Assoc(a: string, b: string, c: string)
    ensures a + (b + c) == a + b + c
  {
  }

  predicate NoSpace(w: string)
  {
    ' ' !in w
  }

  lemma {:induction false} JoinAppend(a: seq<string>, b: seq<string>, sep: string)
    requires |a| > 0 && |b| > 0
    ensures Join(a + b, sep) == Join(a, sep) + sep + Join(b, sep)
  {
    if |a| == 1 {
      assert (a + b)[1..] == b;
    } else {
      assert (a + b)[1..] == a[1..] + b;
      JoinAppend(a[1..], b, sep);
    }
  }

  /** Joining phrases with " mark " is joining the interleaved groups with single spaces. */
  lemma {:induction false} JoinInterleave(phrases: seq<string>, groups: seq<seq<string>>, mark: string)
    requires |phrases| == |groups|
    requires forall i :: 0 <= i < |groups| ==> |groups[i]| > 0 && phrases[i] == Join(groups[i], " ")
    ensures Join(phrases, " " + mark + " ") == Join(Interleave(groups, mark), " ")
  {
    var n := |groups|;
    if n > 1 {
      var init, last := groups[..n - 1], groups[n - 1];
      JoinInterleave(phrases[..n - 1], init, mark);
      JoinAppend(phrases[..n - 1], [phrases[n - 1]], " " + mark + " ");
      assert phrases[..n - 1] + [phrases[n - 1]] == phrases;
      InterleaveNonEmpty(init, mark);
      JoinAppend(Interleave(init, mark), [mark], " ");
      JoinAppend(Interleave(init, mark) + [mark], last, " ");
      var x := Join(phrases[..n - 1], " " + mark + " ");
      assert x + (" " + mark + " ") + phrases[n - 1] == x + " " + mark + " " + phrases[n - 1];
    }
  }

  lemma {:induction false} InterleaveNonEmpty(groups: seq<seq<string>>, mark: string)
    requires |groups| > 0 && forall i :: 0 <= i < |groups| ==> |groups[i]| > 0
    ensures |Interleave(groups, mark)| > 0
  {
  }

  /** Splitting at one separator splits the two sides independently. */
  lemma {:induction false} SplitSep(a: string, b: string, c: char)
    ensures Split(a + [c] + b, c) == Split(a, c) + Split(b, c)
  {
    if |a| == 0 {
      assert a + [c] + b == [c] + b;
      assert ([c] + b)[1..] == b;
    } else {
      assert (a + [c] + b)[1..] == a[1..] + [c] + b;
      SplitSep(a[1..], b, c);
    }
  }

  lemma {:induction false} SplitNoSep(w: string, c: char)
    requires c !in w
    ensures Split(w, c) == [w]
  {
    if |w| > 0 {
      SplitNoSep(w[1..], c);
      assert [w[0]] + w[1..] == w;
    }
  }

  /** Splitting at `c` undoes joining with `c` when no part contains it. */
  lemma {:induction false} SplitJoin(parts: seq<string>, c: char)
    requires |parts| > 0
    requires forall i :: 0 <= i < |parts| ==> c !in parts[i]
    ensures Split(Join(parts, [c]), c) == parts
  {
    if |parts| == 1 {
      SplitNoSep(parts[0], c);
    } else {
      SplitNoSep(parts[0], c);
      SplitSep(parts[0], Join(parts[1..], [c]), c);
      SplitJoin(parts[1..], c);
    }
  }
}

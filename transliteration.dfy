/** `latin_to_persian`, `persian_numerals` and `cleanup_arabic_characters`:
    character substitutions that put Persian digits and punctuation in
    place of their Latin and Arabic look-alikes. */
module Transliteration {
  import opened Strings
  import opened Lexicon

  /** "٫", the Arabic decimal separator. */
  const DecimalSeparator: char := '\U{066B}'
  /** "؟", the Arabic question mark. */
  const QuestionMark: char := '\U{061F}'
  /** "۰", the first Persian digit; the others follow it in order. */
  const PersianZero: int := 0x06F0

  predicate IsAsciiDigit(c: char)
  {
    '0' <= c <= '9'
  }

  predicate IsPersianDigit(c: char)
  {
    '\U{06F0}' <= c <= '\U{06F9}'
  }

  /** Python's `\d` on a `str`: a decimal digit. The model knows the ASCII,
      the Arabic-Indic and the Persian digits. */
  predicate IsDecimalDigit(c: char)
  {
    IsAsciiDigit(c) || '\U{0660}' <= c <= '\U{0669}' || IsPersianDigit(c)
  }

  /** The Persian digit of value `d`. */
  function PersianDigit(d: int): char
    requires 0 <= d <= 9
  {
    (PersianZero + d) as char
  }

  /** What the digit replacements do to one character: an ASCII digit
      becomes the Persian digit of the same value, anything else stays. */
  function ToPersian(c: char): char
  {
    if IsAsciiDigit(c) then PersianDigit(c as int - '0' as int) else c
  }

  /** Back from a Persian digit to the ASCII digit of the same value. */
  function ToLatin(c: char): char
  {
    if IsPersianDigit(c) then ('0' as int + (c as int - PersianZero)) as char else c
  }

  /** The ten chained `replace` calls of `latin_to_persian`, in their order. */
  function PersianDigits(s: string): string
  {
    Replace(Replace(Replace(Replace(Replace(Replace(Replace(Replace(Replace(Replace(s,
      '1', '\U{06F1}'), '2', '\U{06F2}'), '3', '\U{06F3}'), '4', '\U{06F4}'), '5', '\U{06F5}'),
      '6', '\U{06F6}'), '7', '\U{06F7}'), '8', '\U{06F8}'), '9', '\U{06F9}'), '0', '\U{06F0}')
  }

  /** `s` with each character put through `ToPersian`. */
  function DigitMap(s: string): string
  {
    seq(|s|, i requires 0 <= i < |s| => ToPersian(s[i]))
  }

  /** Every Persian digit of `s` turned back into its ASCII digit. */
  function LatinDigits(s: string): string
  {
    seq(|s|, i requires 0 <= i < |s| => ToLatin(s[i]))
  }

  /** `latin.replace('?', '؟')` */
  function QuestionMarks(s: string): string
  {
    Replace(s, '?', QuestionMark)
  }

  /** The regular expression `(\d)sep(\d)` matches at the start of `s`. */
  predicate DecimalAt(s: string, sep: string)
  {
    |s| >= |sep| + 2 && IsDecimalDigit(s[0]) && s[1..|sep| + 1] == sep && IsDecimalDigit(s[|sep| + 1])
  }

  /** `re.sub(r"(\d)" + re.escape(sep) + r"(\d)", r'\1٫\2', s)`: scanning from
      the left, each match becomes its two digits around "٫", and the scan
      resumes after the match, so matches do not overlap. */
  function DecimalPoints(s: string, sep: string): string
    decreases |s|
  {
    if |s| == 0 then ""
    else if DecimalAt(s, sep) then [s[0], DecimalSeparator, s[|sep| + 1]] + DecimalPoints(s[|sep| + 2..], sep)
    else [s[0]] + DecimalPoints(s[1..], sep)
  }

  /** `latin_to_persian(latin, decimal_point, question_mark)`, with `sep` the
      locale's decimal point; it is consulted only when `decimalPoint` is set. */
  function LatinToPersian(latin: string, decimalPoint: bool, questionMark: bool, sep: string): string
  {
    var pointed := if decimalPoint then DecimalPoints(latin, sep) else latin;
    var marked := if questionMark then QuestionMarks(pointed) else pointed;
    PersianDigits(marked)
  }

  /** The ASCII digit of value `d`. */
  function DigitChar(d: int): char
    requires 0 <= d <= 9
  {
    ('0' as int + d) as char
  }

  /** `str(n)` for a natural number: its decimal digits, most significant first. */
  function NaturalString(n: nat): string
  {
    if n < 10 then [DigitChar(n)] else NaturalString(n / 10) + [DigitChar(n % 10)]
  }

  /** `str(n)` for an int: a minus sign before the digits of a negative number. */
  function DecimalString(n: int): string
  {
    if n < 0 then "-" + NaturalString(-n) else NaturalString(n)
  }

  /** `persian_numerals(num)`: `str(num)` through `latin_to_persian` with both
      flags off. */
  function PersianNumerals(num: int): string
  {
    LatinToPersian(DecimalString(num), false, false, ".")
  }

  /** The value of a non-empty string of Persian digits. */
  function PersianNatural(s: string): Option<nat>
  {
    if |s| == 0 || !IsPersianDigit(s[|s| - 1]) then None
    else
      var d := s[|s| - 1] as int - PersianZero;
      if |s| == 1 then Some(d)
      else match PersianNatural(s[..|s| - 1])
        case None => None
        case Some(v) => Some(10 * v + d)
  }

  /** The number a string of Persian digits with an optional minus sign stands for. */
  function ReadPersianNumerals(s: string): Option<int>
  {
    if |s| > 0 && s[0] == '-' then
      match PersianNatural(s[1..])
      case None => None
      case Some(v) => Some(0 - v)
    else PersianNatural(s)
  }

  /** The characters `cleanup_arabic_characters` rewrites: Arabic kaf and
      yeh, and the Arabic-Indic digits four, five and six. */
  predicate IsArabicVariant(c: char)
  {
    c == '\U{0643}' || c == '\U{064A}' || c == '\U{0664}' || c == '\U{0665}' || c == '\U{0666}'
  }

  /** The Persian form of one character: keheh for kaf, Farsi yeh for yeh,
      the Persian digit for an Arabic-Indic four, five or six. */
  function PersianForm(c: char): char
  {
    match c
    case '\U{0643}' => '\U{06A9}'
    case '\U{064A}' => '\U{06CC}'
    case '\U{0664}' => '\U{06F4}'
    case '\U{0665}' => '\U{06F5}'
    case '\U{0666}' => '\U{06F6}'
    case _ => c
  }

  /** `cleanup_arabic_characters`: the five chained `replace` calls, in their order. */
  function CleanupArabicCharacters(problematic: string): string
  {
    Replace(Replace(Replace(Replace(Replace(problematic,
      '\U{0643}', '\U{06A9}'), '\U{064A}', '\U{06CC}'), '\U{0665}', '\U{06F5}'),
      '\U{0664}', '\U{06F4}'), '\U{0666}', '\U{06F6}')
  }

  // Digits

  /** The chained replacements act character by character: each ASCII
      digit becomes its Persian digit and every other character is kept. */
  lemma PersianDigitsMap(s: string)
    ensures |PersianDigits(s)| == |s|
    ensures forall i :: 0 <= i < |s| ==> PersianDigits(s)[i] == ToPersian(s[i])
    ensures PersianDigits(s) == DigitMap(s)
  {
    forall i | 0 <= i < |s|
      ensures PersianDigits(s)[i] == ToPersian(s[i])
    {
      var c := s[i];
      if IsAsciiDigit(c) {
        assert c in "0123456789";
      }
    }
  }

  /** No ASCII digit survives the replacements, and nothing but ASCII digits changes. */
  lemma PersianDigitsClean(s: string)
    ensures forall i :: 0 <= i < |s| ==> !IsAsciiDigit(PersianDigits(s)[i])
    ensures forall i :: 0 <= i < |s| && !IsAsciiDigit(s[i]) ==> PersianDigits(s)[i] == s[i]
    ensures forall i :: 0 <= i < |s| && IsAsciiDigit(s[i]) ==> IsPersianDigit(PersianDigits(s)[i])
  {
    PersianDigitsMap(s);
  }

  /** Turning the Persian digits back gives the text again, when it had none to begin with. */
  lemma PersianDigitsRoundTrip(s: string)
    requires forall i :: 0 <= i < |s| ==> !IsPersianDigit(s[i])
    ensures LatinDigits(PersianDigits(s)) == s
  {
    PersianDigitsMap(s);
  }

  // latin_to_persian

  /** With both flags off: the same length, each ASCII digit replaced by its
      Persian digit, every other character kept. */
  lemma LatinToPersianPlain(latin: string, sep: string)
    ensures var r := LatinToPersian(latin, false, false, sep);
      |r| == |latin| && forall i :: 0 <= i < |latin| ==> r[i] == ToPersian(latin[i])
  {
    PersianDigitsMap(latin);
  }

  /** With `question_mark` set: every "?" becomes "؟", so none is left. */
  lemma LatinToPersianQuestionMarks(latin: string, sep: string)
    ensures var r := LatinToPersian(latin, false, true, sep);
      |r| == |latin|
      && (forall i :: 0 <= i < |latin| ==> r[i] == if latin[i] == '?' then QuestionMark else ToPersian(latin[i]))
      && '?' !in r
  {
    PersianDigitsMap(QuestionMarks(latin));
  }

  /** Whatever the flags, no ASCII digit is left. */
  lemma LatinToPersianNoAsciiDigits(latin: string, decimalPoint: bool, questionMark: bool, sep: string)
    ensures var r := LatinToPersian(latin, decimalPoint, questionMark, sep);
      forall i :: 0 <= i < |r| ==> !IsAsciiDigit(r[i])
  {
    var pointed := if decimalPoint then DecimalPoints(latin, sep) else latin;
    var marked := if questionMark then QuestionMarks(pointed) else pointed;
    PersianDigitsClean(marked);
  }

  /** With both flags off the Latin text comes back from the Persian one,
      when it held no Persian digits. */
  lemma LatinToPersianRoundTrip(latin: string, sep: string)
    requires forall i :: 0 <= i < |latin| ==> !IsPersianDigit(latin[i])
    ensures LatinDigits(LatinToPersian(latin, false, false, sep)) == latin
  {
    PersianDigitsRoundTrip(latin);
  }

  // The decimal step

  /** A one-character separator: the rewrite keeps the length, and changes
      only separators that sit between two digits, each into "٫". */
  lemma {:induction false} DecimalPointsChanges(s: string, c: char)
    ensures var r := DecimalPoints(s, [c]);
      |r| == |s|
      && forall i :: 0 <= i < |s| && r[i] != s[i] ==>
        0 < i < |s| - 1 && s[i] == c && r[i] == DecimalSeparator
        && IsDecimalDigit(s[i - 1]) && IsDecimalDigit(s[i + 1])
    decreases |s|
  {
    var sep := [c];
    if |s| > 0 {
      var r := DecimalPoints(s, sep);
      if DecimalAt(s, sep) {
        var rest := s[3..];
        DecimalPointsChanges(rest, c);
        assert r == [s[0], DecimalSeparator, s[2]] + DecimalPoints(rest, sep);
        forall i | 0 <= i < |s| && r[i] != s[i]
          ensures 0 < i < |s| - 1 && s[i] == c && r[i] == DecimalSeparator
            && IsDecimalDigit(s[i - 1]) && IsDecimalDigit(s[i + 1])
        {
          if i >= 3 {
            assert r[i] == DecimalPoints(rest, sep)[i - 3] && s[i] == rest[i - 3];
          } else {
            assert s[1..2] == [s[1]];
          }
        }
      } else {
        var rest := s[1..];
        DecimalPointsChanges(rest, c);
        assert r == [s[0]] + DecimalPoints(rest, sep);
        forall i | 0 <= i < |s| && r[i] != s[i]
          ensures 0 < i < |s| - 1 && s[i] == c && r[i] == DecimalSeparator
            && IsDecimalDigit(s[i - 1]) && IsDecimalDigit(s[i + 1])
        {
          assert i > 0 && r[i] == DecimalPoints(rest, sep)[i - 1] && s[i] == rest[i - 1];
        }
      }
    }
  }

  /** A one-character separator: putting it back in place of every "٫"
      undoes the rewrite, when the text had no "٫" of its own. */
  lemma {:induction false} DecimalPointsRoundTrip(s: string, c: char)
    requires DecimalSeparator !in s
    ensures Replace(DecimalPoints(s, [c]), DecimalSeparator, c) == s
  {
    var r := DecimalPoints(s, [c]);
    DecimalPointsChanges(s, c);
    var back := Replace(r, DecimalSeparator, c);
    forall i | 0 <= i < |s|
      ensures back[i] == s[i]
    {
      if r[i] == s[i] {
        assert s[i] != DecimalSeparator;
      }
    }
  }

  /** Every "٫" of `r` stands between two digits. */
  predicate Flanked(r: string)
  {
    forall i :: 0 <= i < |r| && r[i] == DecimalSeparator ==>
      0 < i < |r| - 1 && IsDecimalDigit(r[i - 1]) && IsDecimalDigit(r[i + 1])
  }

  lemma FlankedPrefix(head: string, tail: string)
    requires |head| > 0 && head[0] != DecimalSeparator && head[|head| - 1] != DecimalSeparator
    requires Flanked(head) && Flanked(tail)
    requires tail == [] || tail[0] != DecimalSeparator
    ensures Flanked(head + tail)
  {
    var r := head + tail;
    forall i | 0 <= i < |r| && r[i] == DecimalSeparator
      ensures 0 < i < |r| - 1 && IsDecimalDigit(r[i - 1]) && IsDecimalDigit(r[i + 1])
    {
      if i >= |head| {
        var j := i - |head|;
        assert tail[j] == DecimalSeparator;
        assert r[i - 1] == tail[j - 1] && r[i + 1] == tail[j + 1];
      } else {
        assert r[i - 1] == head[i - 1] && r[i + 1] == head[i + 1];
      }
    }
  }

  /** Any separator: every "٫" of the result stands between two digits,
      when the text had no "٫" of its own. */
  lemma {:induction false} DecimalPointsFlanked(s: string, sep: string)
    requires DecimalSeparator !in s
    ensures Flanked(DecimalPoints(s, sep))
    decreases |s|
  {
    if |s| > 0 {
      var n := if DecimalAt(s, sep) then |sep| + 2 else 1;
      var head := if DecimalAt(s, sep) then [s[0], DecimalSeparator, s[|sep| + 1]] else [s[0]];
      var rest := s[n..];
      assert DecimalSeparator !in rest by {
        assert forall j :: 0 <= j < |rest| ==> rest[j] == s[n + j];
      }
      DecimalPointsFlanked(rest, sep);
      var tail := DecimalPoints(rest, sep);
      assert DecimalPoints(s, sep) == head + tail;
      assert tail == [] || tail[0] == rest[0];
      FlankedPrefix(head, tail);
    }
  }

  /** `r` with the separator `sep` put back in place of every "٫". */
  function Restore(r: string, sep: string): string
  {
    if |r| == 0 then ""
    else (if r[0] == DecimalSeparator then sep else [r[0]]) + Restore(r[1..], sep)
  }

  lemma {:induction false} RestoreAppend(a: string, b: string, sep: string)
    ensures Restore(a + b, sep) == Restore(a, sep) + Restore(b, sep)
    decreases |a|
  {
    if |a| > 0 {
      assert (a + b)[1..] == a[1..] + b;
      RestoreAppend(a[1..], b, sep);
    } else {
      assert a + b == b;
    }
  }

  lemma RestoreOne(c: char, sep: string)
    ensures Restore([c], sep) == if c == DecimalSeparator then sep else [c]
  {
    assert [c][1..] == [];
  }

  lemma RestoreTriple(d: char, e: char, sep: string)
    requires d != DecimalSeparator && e != DecimalSeparator
    ensures Restore([d, DecimalSeparator, e], sep) == [d] + sep + [e]
  {
    RestoreOne(d, sep);
    RestoreOne(e, sep);
    RestoreOne(DecimalSeparator, sep);
    assert [d, DecimalSeparator, e] == [d] + ([DecimalSeparator] + [e]);
    RestoreAppend([DecimalSeparator], [e], sep);
    RestoreAppend([d], [DecimalSeparator] + [e], sep);
  }

  lemma RestoreHead(s: string, sep: string)
    requires |s| > 0 && DecimalSeparator !in s
    ensures DecimalAt(s, sep) ==>
      Restore([s[0], DecimalSeparator, s[|sep| + 1]], sep) == s[..|sep| + 2]
    ensures Restore([s[0]], sep) == s[..1]
  {
    RestoreOne(s[0], sep);
    if DecimalAt(s, sep) {
      var d, e, k := s[0], s[|sep| + 1], |sep| + 2;
      assert e != DecimalSeparator by {
        assert e in s;
      }
      assert s[..k] == [d] + sep + [e] by {
        assert s[..k] == [d] + s[1..k - 1] + [e];
      }
      RestoreTriple(d, e, sep);
    }
  }

  /** Any separator: putting it back in place of every "٫" undoes the
      rewrite, when the text had no "٫" of its own. */
  lemma {:induction false} DecimalPointsRestore(s: string, sep: string)
    requires DecimalSeparator !in s
    ensures Restore(DecimalPoints(s, sep), sep) == s
    decreases |s|
  {
    if |s| > 0 {
      var n := if DecimalAt(s, sep) then |sep| + 2 else 1;
      var head := if DecimalAt(s, sep) then [s[0], DecimalSeparator, s[|sep| + 1]] else [s[0]];
      var rest := s[n..];
      assert DecimalSeparator !in rest by {
        assert forall j :: 0 <= j < |rest| ==> rest[j] == s[n + j];
      }
      DecimalPointsRestore(rest, sep);
      assert DecimalPoints(s, sep) == head + DecimalPoints(rest, sep);
      RestoreAppend(head, DecimalPoints(rest, sep), sep);
      RestoreHead(s, sep);
      assert s == s[..n] + rest;
    }
  }

  /** Any separator: a digit, the separator and a digit anywhere in the text
      leave a "٫" in the result; the rewrite is never skipped. */
  lemma {:induction false} DecimalPointsFires(s: string, sep: string, i: nat)
    requires i < |s| && DecimalAt(s[i..], sep)
    ensures DecimalSeparator in DecimalPoints(s, sep)
    decreases |s|
  {
    if DecimalAt(s, sep) {
      assert DecimalPoints(s, sep)[1] == DecimalSeparator;
    } else {
      assert i > 0 by {
        assert s[0..] == s;
      }
      var rest := s[1..];
      assert rest[i - 1..] == s[i..];
      DecimalPointsFires(rest, sep, i - 1);
      assert DecimalPoints(s, sep) == [s[0]] + DecimalPoints(rest, sep);
    }
  }

  /** A "٫" at position i of `r`, a rewrite of `s` with a one-character
      separator `c`: a match starts at i - 1, and the scan did not consume
      i - 1 as the last digit of a match two places before. */
  predicate PointAt(s: string, r: string, c: char, i: int)
    requires |r| == |s| && 0 <= i < |s|
  {
    0 < i < |s| - 1 && IsDecimalDigit(s[i - 1]) && s[i] == c && IsDecimalDigit(s[i + 1])
    && !(i >= 2 && r[i - 2] == DecimalSeparator)
  }

  /** With a one-character separator, a match is a digit, the separator and
      a digit. */
  lemma DecimalAtOne(s: string, c: char)
    ensures DecimalAt(s, [c]) <==> |s| >= 3 && IsDecimalDigit(s[0]) && s[1] == c && IsDecimalDigit(s[2])
  {
    if |s| >= 3 {
      assert s[1..2] == [s[1]];
    }
  }

  /** A one-character separator that is not a digit: position by position,
      the result has "٫" exactly where a match left of it was rewritten, so
      together with `DecimalPointsChanges` this determines the result. */
  lemma {:induction false} DecimalPointsWhere(s: string, c: char)
    requires DecimalSeparator !in s && !IsDecimalDigit(c)
    ensures var r := DecimalPoints(s, [c]);
      |r| == |s| && forall i :: 0 <= i < |s| ==> (r[i] == DecimalSeparator <==> PointAt(s, r, c, i))
    decreases |s|
  {
    var sep := [c];
    DecimalPointsChanges(s, c);
    if |s| > 0 {
      var r := DecimalPoints(s, sep);
      var n := if DecimalAt(s, sep) then 3 else 1;
      var rest := s[n..];
      assert DecimalSeparator !in rest by {
        assert forall j :: 0 <= j < |rest| ==> rest[j] == s[n + j];
      }
      DecimalPointsWhere(rest, c);
      var tail := DecimalPoints(rest, sep);
      assert r[n..] == tail;
      assert r == (if n == 3 then [s[0], DecimalSeparator, s[2]] else [s[0]]) + tail;
      assert n == 3 ==> r[1] == DecimalSeparator;
      assert s[n - 1] != DecimalSeparator && r[n - 1] == s[n - 1] by {
        assert s[n - 1] in s;
      }
      forall i | 0 <= i < |s|
        ensures r[i] == DecimalSeparator <==> PointAt(s, r, c, i)
      {
        if i < n {
          DecimalWhereHead(s, r, c, n, i);
        } else {
          assert tail[i - n] == DecimalSeparator <==> PointAt(rest, tail, c, i - n);
          assert i == n ==> tail[0] == rest[0];
          assert rest[0] != DecimalSeparator by {
            assert rest[0] in rest;
          }
          DecimalWhereTail(s, r, c, n, tail, i);
        }
      }
    }
  }

  /** A position inside the first step of the scan. */
  lemma DecimalWhereHead(s: string, r: string, c: char, n: nat, i: int)
    requires |r| == |s| && !IsDecimalDigit(c) && 0 <= i < n <= |s|
    requires n == 3 ==> DecimalAt(s, [c]) && r[0] == s[0] && r[1] == DecimalSeparator && r[2] == s[2]
    requires n == 1 ==> !DecimalAt(s, [c]) && r[0] == s[0]
    requires n == 1 || n == 3
    requires s[0] != DecimalSeparator && s[n - 1] != DecimalSeparator
    ensures r[i] == DecimalSeparator <==> PointAt(s, r, c, i)
  {
    DecimalAtOne(s, c);
  }

  /** A position after the first step of the scan, from the result for the
      rest of the text. */
  lemma DecimalWhereTail(s: string, r: string, c: char, n: nat, tail: string, i: int)
    requires |r| == |s| && (n == 1 || n == 3) && n <= i < |s| && r[n..] == tail
    requires n == 1 ==> !DecimalAt(s, [c])
    requires n == 3 ==> r[1] == DecimalSeparator
    requires r[n - 1] != DecimalSeparator
    requires tail[i - n] == DecimalSeparator <==> PointAt(s[n..], tail, c, i - n)
    requires i == n ==> tail[0] != DecimalSeparator
    ensures r[i] == DecimalSeparator <==> PointAt(s, r, c, i)
  {
    assert r[i] == tail[i - n];
    if i == n {
      DecimalAtOne(s, c);
    } else {
      DecimalWhereShift(s, r, c, n, tail, i);
    }
  }

  /** Past the first position after the first step, the test at i is the
      rest's test at i - n. */
  lemma DecimalWhereShift(s: string, r: string, c: char, n: nat, tail: string, i: int)
    requires |r| == |s| && (n == 1 || n == 3) && n < i < |s| && r[n..] == tail
    requires r[n - 1] != DecimalSeparator
    ensures PointAt(s, r, c, i) == PointAt(s[n..], tail, c, i - n)
  {
    var j := i - n;
    assert s[i - 1] == s[n..][j - 1] && s[i] == s[n..][j];
    assert i + 1 < |s| ==> s[i + 1] == s[n..][j + 1];
    if j >= 2 {
      assert r[i - 2] == tail[j - 2];
    }
  }

  /** "69.420" with "." as the separator becomes "69٫420": the match is the
      "9.4" in the middle, and the scan goes on after it. */
  lemma DecimalPointsExample()
    ensures DecimalPoints("69.420", ".") == "69\U{066B}420"
  {
    assert !DecimalAt("69.420", ".");
    assert DecimalAt("9.420", ".");
    assert "9.420"[3..] == "20";
    assert !DecimalAt("20", ".") && !DecimalAt("0", ".");
    assert DecimalPoints("0", ".") == "0";
    assert DecimalPoints("20", ".") == "20";
  }

  // persian_numerals

  lemma {:induction false} NaturalDigits(n: nat)
    ensures |NaturalString(n)| > 0
    ensures forall i :: 0 <= i < |NaturalString(n)| ==> IsAsciiDigit(NaturalString(n)[i])
  {
    if n >= 10 {
      NaturalDigits(n / 10);
    }
  }

  /** The Persian form of `str(n)` reads back as `n`. */
  lemma {:induction false} NaturalRead(n: nat)
    ensures PersianNatural(DigitMap(NaturalString(n))) == Some(n)
  {
    var s := NaturalString(n);
    var p := DigitMap(s);
    if n < 10 {
      assert p[0] == PersianDigit(n);
    } else {
      var init := NaturalString(n / 10);
      NaturalRead(n / 10);
      assert p[..|p| - 1] == DigitMap(init);
      assert p[|p| - 1] == PersianDigit(n % 10);
    }
  }

  /** `persian_numerals` gives Persian digits only, after a minus sign for a negative number. */
  lemma PersianNumeralsDigits(num: int)
    ensures var r := PersianNumerals(num);
      |r| > 0 && (r[0] == '-' <==> num < 0)
      && forall i :: 0 <= i < |r| && (i > 0 || num >= 0) ==> IsPersianDigit(r[i])
  {
    var s := DecimalString(num);
    PersianDigitsMap(s);
    if num < 0 {
      NaturalDigits(-num);
      assert forall i :: 0 < i < |s| ==> s[i] == NaturalString(-num)[i - 1];
    } else {
      NaturalDigits(num);
    }
  }

  /** `str(num)` with its digits made Persian reads back as `num`. */
  lemma DecimalStringRead(num: int)
    ensures ReadPersianNumerals(DigitMap(DecimalString(num))) == Some(num)
  {
    var s := DecimalString(num);
    var r := DigitMap(s);
    if num < 0 {
      var digits := NaturalString(-num);
      NaturalRead(-num);
      assert r[1..] == DigitMap(digits);
    } else {
      NaturalRead(num);
      NaturalDigits(num);
      assert r[0] != '-';
    }
  }

  /** Reading the Persian numerals of a number gives the number back. */
  lemma PersianNumeralsRoundTrip(num: int)
    ensures ReadPersianNumerals(PersianNumerals(num)) == Some(num)
  {
    PersianDigitsMap(DecimalString(num));
    DecimalStringRead(num);
  }

  /** Different numbers have different Persian numerals. */
  lemma PersianNumeralsInjective(a: int, b: int)
    requires PersianNumerals(a) == PersianNumerals(b)
    ensures a == b
  {
    PersianNumeralsRoundTrip(a);
    PersianNumeralsRoundTrip(b);
  }

  // cleanup_arabic_characters

  /** The chained replacements act character by character, each giving its Persian form. */
  lemma CleanupMap(s: string)
    ensures |CleanupArabicCharacters(s)| == |s|
    ensures forall i :: 0 <= i < |s| ==> CleanupArabicCharacters(s)[i] == PersianForm(s[i])
  {
  }

  /** None of the five Arabic variants is left, and every other character is kept. */
  lemma CleanupNoArabic(s: string)
    ensures var r := CleanupArabicCharacters(s);
      (forall i :: 0 <= i < |r| ==> !IsArabicVariant(r[i]))
      && forall i :: 0 <= i < |s| && !IsArabicVariant(s[i]) ==> r[i] == s[i]
  {
    CleanupMap(s);
  }

  /** Cleaning up twice is cleaning up once. */
  lemma CleanupIdempotent(s: string)
    ensures CleanupArabicCharacters(CleanupArabicCharacters(s)) == CleanupArabicCharacters(s)
  {
    var r := CleanupArabicCharacters(s);
    CleanupMap(s);
    CleanupMap(r);
  }
}

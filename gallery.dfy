/** The photo gallery page (assets/js/main.js): student numbers (NIM) are
    built from cohort, faculty and programme codes plus a running sequence
    number, and each one becomes a photo card in the album grid. */
module Gallery {
  import opened Text

  function Max(a: nat, b: nat): nat { if a >= b then a else b }

  /** `pad(num, length)`: the decimal digits of `num` left-filled with '0' up
      to `length`, exactly as wide as the wider of `length` and the digits.
      PadShape and PadDenotes show that it is zeros followed by every digit
      and denotes `num`: a value wider than the field is never cut. */
  function Pad(num: nat, length: nat): (r: string)
    ensures |r| == Max(length, |Digits(num)|)
  {
    var d := Digits(num);
    if |d| >= length then d else Zeros(length - |d|) + d
  }

  /** The padding is all zeros, followed by every digit of the number. */
  lemma PadShape(num: nat, length: nat)
    ensures Pad(num, length) == Zeros(|Pad(num, length)| - |Digits(num)|) + Digits(num)
  {
    if |Digits(num)| >= length {
      assert Zeros(0) == [];
    }
  }

  /** A padded number denotes the number itself. */
  lemma PadDenotes(num: nat, length: nat)
    ensures AllDigits(Pad(num, length)) && ValueOf(Pad(num, length)) == num
  {
    PadShape(num, length);
    ValueOfDigits(num);
    ValueOfZerosPrefix(|Pad(num, length)| - |Digits(num)|, Digits(num));
  }

  /** A value that fits its field comes back exactly as wide as the field. */
  lemma PadFits(num: nat, length: nat)
    requires length >= 1 && num < Pow10(length)
    ensures |Pad(num, length)| == length
  {
    DigitsFit(num, length);
  }

  /** A value wider than its field comes back unchanged: the field widens. */
  lemma PadWidens(num: nat, length: nat)
    requires length >= 1 && num >= Pow10(length)
    ensures Pad(num, length) == Digits(num) && |Pad(num, length)| > length
  {
    DigitsFit(num, length);
    PadShape(num, length);
  }

  /** `padStart(length, '0')` on text: the text left-filled with '0' up to
      `length`, never cut. */
  function PadText(s: string, length: nat): (r: string)
    ensures |r| == Max(length, |s|)
  {
    if |s| >= length then s else Zeros(length - |s|) + s
  }

  /** The padding is all zeros, followed by the whole text. */
  lemma PadTextShape(s: string, length: nat)
    ensures PadText(s, length) == Zeros(|PadText(s, length)| - |s|) + s
  {
    if |s| >= length {
      assert Zeros(0) == [];
    }
  }

  /** Padding a number is padding its decimal rendering. */
  lemma PadIsPadText(num: nat, length: nat)
    ensures Pad(num, length) == PadText(Digits(num), length)
  {
  }

  /** The generator form: the cohort, faculty and programme codes as typed
      (their text is padded as it is, never parsed), and the start number
      after `parseInt`. */
  datatype Form = Form(angkatan: string, fakultas: string, prodi: string, nimStart: nat)

  /** The prefix an initial load builds from the form. */
  function FormPrefix(form: Form): (r: string)
    ensures |r| == Max(2, |form.angkatan|) + Max(2, |form.fakultas|) + Max(3, |form.prodi|)
  {
    PadText(form.angkatan, 2) + PadText(form.fakultas, 2) + PadText(form.prodi, 3)
  }

  /** Codes typed as the plain decimal rendering of numbers give the prefix
      of those numbers. */
  lemma TypedPrefix(a: nat, f: nat, p: nat, start: nat)
    ensures FormPrefix(Form(Digits(a), Digits(f), Digits(p), start)) == NimPrefix(a, f, p)
  {
    PadIsPadText(a, 2);
    PadIsPadText(f, 2);
    PadIsPadText(p, 3);
  }

  /** A code typed with more characters than its field, a leading zero
      included, is kept whole: the prefix grows. */
  lemma TypedCodeKept(form: Form)
    requires |form.fakultas| > 2
    ensures |FormPrefix(form)| > 7
    ensures FormPrefix(form)[|PadText(form.angkatan, 2)|..][..|form.fakultas|] == form.fakultas
  {
    var a := PadText(form.angkatan, 2);
    var r := FormPrefix(form);
    assert PadText(form.fakultas, 2) == form.fakultas;
    assert r[|a|..][..|form.fakultas|] == r[|a|..|a| + |form.fakultas|];
  }

  /** The seven-character prefix shared by a whole run: cohort (2 digits),
      faculty (2 digits) and programme (3 digits). */
  function NimPrefix(angkatan: nat, fakultas: nat, prodi: nat): (r: string)
    ensures |r| == Max(2, |Digits(angkatan)|) + Max(2, |Digits(fakultas)|) + Max(3, |Digits(prodi)|)
  {
    Pad(angkatan, 2) + Pad(fakultas, 2) + Pad(prodi, 3)
  }

  /** One full student number: the prefix followed by the 3-digit sequence number. */
  function Nim(prefix: string, i: nat): (r: string)
    ensures |r| == |prefix| + Max(3, |Digits(i)|) && prefix <= r
  {
    prefix + Pad(i, 3)
  }

  /** With every field inside its width, a NIM is ten decimal digits. */
  lemma {:induction false} NimIsTenDigits(angkatan: nat, fakultas: nat, prodi: nat, i: nat)
    requires angkatan < 100 && fakultas < 100 && prodi < 1000 && i < 1000
    ensures var nim := Nim(NimPrefix(angkatan, fakultas, prodi), i);
      |nim| == 10 && AllDigits(nim)
  {
    PadFits(angkatan, 2);
    PadFits(fakultas, 2);
    PadFits(prodi, 3);
    PadFits(i, 3);
  }

  /** Under one prefix, distinct sequence numbers give distinct NIMs, whatever
      their width. */
  lemma {:induction false} NimInjective(prefix: string, i: nat, j: nat)
    requires Nim(prefix, i) == Nim(prefix, j)
    ensures i == j
  {
    assert Nim(prefix, i)[|prefix|..] == Pad(i, 3);
    assert Nim(prefix, j)[|prefix|..] == Pad(j, 3);
    PadDenotes(i, 3);
    PadDenotes(j, 3);
  }

  /** With every field inside its width, a NIM determines all four fields. */
  lemma {:induction false} NimDeterminesFields(a: nat, f: nat, p: nat, i: nat,
                                               a': nat, f': nat, p': nat, i': nat)
    requires a < 100 && f < 100 && p < 1000 && i < 1000
    requires a' < 100 && f' < 100 && p' < 1000 && i' < 1000
    requires Nim(NimPrefix(a, f, p), i) == Nim(NimPrefix(a', f', p'), i')
    ensures a == a' && f == f' && p == p' && i == i'
  {
    PadFits(a, 2); PadFits(f, 2); PadFits(p, 3); PadFits(i, 3);
    PadFits(a', 2); PadFits(f', 2); PadFits(p', 3); PadFits(i', 3);
    SplitAt(Pad(a, 2) + Pad(f, 2) + Pad(p, 3), Pad(i, 3), Pad(a', 2) + Pad(f', 2) + Pad(p', 3), Pad(i', 3));
    SplitAt(Pad(a, 2) + Pad(f, 2), Pad(p, 3), Pad(a', 2) + Pad(f', 2), Pad(p', 3));
    SplitAt(Pad(a, 2), Pad(f, 2), Pad(a', 2), Pad(f', 2));
    PadInjective(a, a', 2);
    PadInjective(f, f', 2);
    PadInjective(p, p', 3);
    PadInjective(i, i', 3);
  }

  lemma PadInjective(n: nat, n': nat, length: nat)
    requires Pad(n, length) == Pad(n', length)
    ensures n == n'
  {
    PadDenotes(n, length);
    PadDenotes(n', length);
  }

  lemma SplitAt(x: string, y: string, x': string, y': string)
    requires x + y == x' + y' && |x| == |x'|
    ensures x == x' && y == y'
  {
    assert x == (x + y)[..|x|] && x' == (x' + y')[..|x|];
    assert y == (x + y)[|x|..] && y' == (x' + y')[|x|..];
  }

  /** For a code below 100, the padded field is exactly its tens and units
      digits. */
  lemma {:induction false} PadTwo(i: nat)
    requires i < 100
    ensures Pad(i, 2) == [DigitChar(i / 10), DigitChar(i % 10)]
  {
    var d := Digits(i);
    if i < 10 {
      assert d == [DigitChar(i)];
      assert Pad(i, 2) == Zeros(1) + d;
      assert Zeros(1) == [DigitChar(0)];
    } else {
      assert d == Digits(i / 10) + [DigitChar(i % 10)];
      assert Digits(i / 10) == [DigitChar(i / 10)];
    }
  }

  /** For a sequence number below 1000, the padded field is exactly its
      hundreds, tens and units digits. */
  lemma {:induction false} PadThree(i: nat)
    requires i < 1000
    ensures Pad(i, 3) == [DigitChar(i / 100), DigitChar((i / 10) % 10), DigitChar(i % 10)]
  {
    var d := Digits(i);
    if i < 10 {
      assert d == [DigitChar(i)];
      assert Pad(i, 3) == Zeros(2) + d;
      assert Zeros(2) == [DigitChar(0), DigitChar(0)];
    } else if i < 100 {
      assert d == Digits(i / 10) + [DigitChar(i % 10)];
      assert Digits(i / 10) == [DigitChar(i / 10)];
      assert Pad(i, 3) == Zeros(1) + d;
      assert Zeros(1) == [DigitChar(0)];
    } else {
      assert Digits(i / 10) == [DigitChar(i / 100), DigitChar((i / 10) % 10)];
      assert Pad(i, 3) == d;
    }
  }

  /** Because no field is checked against its width, an overflowing programme
      code and an overflowing sequence number can produce the same
      identifier: with cohort 2 and faculty 4, programme 1001 with sequence
      5 and programme 100 with sequence 1005 both give 02041001005
      (p = 100, d = 1, i = 5). */
  lemma {:induction false} OverflowCollides(a: nat, f: nat, p: nat, d: nat, i: nat)
    requires 100 <= p < 1000 && 1 <= d <= 9 && i < 1000
    ensures Nim(NimPrefix(a, f, 10 * p + d), i) == Nim(NimPrefix(a, f, p), 1000 * d + i)
  {
    TrailingDigit(p, d);
    LeadingDigit(d, i);
    Regroup(Pad(a, 2) + Pad(f, 2), Pad(p, 3), [DigitChar(d)], Pad(i, 3));
  }

  /** A three-digit programme code followed by one more digit. */
  lemma {:induction false} TrailingDigit(p: nat, d: nat)
    requires 100 <= p < 1000 && d <= 9
    ensures Pad(10 * p + d, 3) == Pad(p, 3) + [DigitChar(d)]
  {
    var n := 10 * p + d;
    assert n / 10 == p && n % 10 == d;
    PadWidens(n, 3);
    PadWidens(p, 2);
    PadFits(p, 3);
    assert Digits(n) == Digits(p) + [DigitChar(d)];
  }

  lemma Regroup(h: string, x: string, y: string, z: string)
    ensures h + (x + y) + z == h + x + (y + z)
  {
  }

  /** A digit in front of a padded three-digit field is the rendering of
      the four-digit number. */
  lemma {:induction false} LeadingDigit(d: nat, i: nat)
    requires 1 <= d <= 9 && i < 1000
    ensures Pad(1000 * d + i, 3) == [DigitChar(d)] + Pad(i, 3)
  {
    PadWidens(1000 * d + i, 3);
    LeadingDigitDigits(d, i);
  }

  lemma {:induction false} LeadingDigitDigits(d: nat, i: nat)
    requires 1 <= d <= 9 && i < 1000
    ensures Digits(1000 * d + i) == [DigitChar(d)] + Pad(i, 3)
  {
    var n := 1000 * d + i;
    ThousandsDigits(d, i);
    var n1 := n / 10;
    var n2 := n1 / 10;
    PadThree(i);
    assert Digits(n) == Digits(n1) + [DigitChar(i % 10)];
    assert Digits(n1) == Digits(n2) + [DigitChar((i / 10) % 10)];
    assert Digits(n2) == Digits(d) + [DigitChar(i / 100)];
    assert Digits(d) == [DigitChar(d)];
  }

  /** The decimal digits of `1000 * d + i`, peeled off from the right. */
  lemma ThousandsDigits(d: nat, i: nat)
    requires 1 <= d <= 9 && i < 1000
    ensures var n := 1000 * d + i;
      && n >= 10 && n % 10 == i % 10
      && n / 10 >= 10 && (n / 10) % 10 == (i / 10) % 10
      && n / 10 / 10 >= 10 && (n / 10 / 10) % 10 == i / 100
      && n / 10 / 10 / 10 == d
  {
    var n := 1000 * d + i;
    assert n / 10 == 100 * d + i / 10;
    assert n / 10 / 10 == 10 * d + i / 10 / 10;
    assert i / 10 / 10 == i / 100;
  }

  /** The worked example: cohort 24, faculty 1, programme 140, sequence 5. */
  lemma Example()
    ensures Nim(NimPrefix(24, 1, 140), 5) == "2401140005"
  {
    ExamplePrefix();
    ExampleSequence();
  }

  lemma ExamplePrefix()
    ensures NimPrefix(24, 1, 140) == "2401140"
  {
    ExampleCohort();
    ExampleProgramme();
    PadTwo(1);
  }

  lemma ExampleCohort()
    ensures Pad(24, 2) == "24"
  {
    PadTwo(24);
  }

  lemma ExampleProgramme()
    ensures Pad(140, 3) == "140"
  {
    PadThree(140);
  }

  lemma ExampleSequence()
    ensures Pad(5, 3) == "005"
  {
    PadThree(5);
  }

  /** The identifiers for sequence numbers `start`, ..., `start + count - 1`, in order. */
  function NimRange(prefix: string, start: nat, count: nat): (r: seq<string>)
    ensures |r| == count
    ensures forall k | 0 <= k < count :: r[k] == Nim(prefix, start + k)
  {
    seq(count, k requires 0 <= k < count => Nim(prefix, start + k))
  }

  /** Two runs where the second starts where the first stopped are one
      contiguous run: "load more" leaves no gap and repeats nothing. */
  lemma {:induction false} NimRangeAppend(prefix: string, start: nat, m: nat, n: nat)
    ensures NimRange(prefix, start, m) + NimRange(prefix, start + m, n) == NimRange(prefix, start, m + n)
  {
    var lhs := NimRange(prefix, start, m) + NimRange(prefix, start + m, n);
    forall k | 0 <= k < m + n ensures lhs[k] == Nim(prefix, start + k) {
      if k >= m { assert lhs[k] == NimRange(prefix, start + m, n)[k - m]; }
    }
  }

  /** A first load followed by a second one from where it stopped holds one
      run twice as long. */
  lemma RunsJoin(prefix: string, start: nat, count: nat, first: seq<string>, all: seq<string>)
    requires first == NimRange(prefix, start, count)
    requires all == first + NimRange(prefix, start + count, count)
    ensures all == NimRange(prefix, start, count + count)
  {
    NimRangeAppend(prefix, start, count, count);
  }

  /** A run extended by the next identifier is the run one longer. */
  lemma NimRangeSnoc(prefix: string, start: nat, n: nat)
    ensures NimRange(prefix, start, n) + [Nim(prefix, start + n)] == NimRange(prefix, start, n + 1)
  {
    var lhs := NimRange(prefix, start, n) + [Nim(prefix, start + n)];
    assert forall k | 0 <= k < n + 1 :: lhs[k] == Nim(prefix, start + k);
  }

  lemma AppendAssociates<T>(a: seq<T>, b: seq<T>, c: seq<T>)
    ensures (a + b) + c == a + (b + c)
  {
  }

  /** A run never shows the same identifier twice. */
  lemma NimRangeDistinct(prefix: string, start: nat, count: nat, j: nat, k: nat)
    requires j < k < count
    ensures NimRange(prefix, start, count)[j] != NimRange(prefix, start, count)[k]
  {
    if Nim(prefix, start + j) == Nim(prefix, start + k) {
      NimInjective(prefix, start + j, start + k);
    }
  }

  /** The page state of the generator: the module-level `nimPrefix` and
      `currentNimNumber`, and the identifiers of the photo cards in the album
      grid, in the order they were appended. */
  class Album {
    var nimPrefix: string
    var currentNimNumber: nat
    var cards: seq<string>

    constructor ()
      ensures nimPrefix == "" && currentNimNumber == 1 && cards == []
    {
      nimPrefix := "";
      currentNimNumber := 1;
      cards := [];
    }

    /** `loadImages(count, isInitialLoad)`. An initial load clears the grid,
        rebuilds the prefix from the form and restarts the sequence at the
        form's start number; every load then appends `count` cards for the
        next sequence numbers and advances the cursor past them. */
    method LoadImages(count: nat, isInitialLoad: bool, form: Form)
      modifies this
      ensures nimPrefix == if isInitialLoad then FormPrefix(form) else old(nimPrefix)
      ensures var first := if isInitialLoad then form.nimStart else old(currentNimNumber);
        && currentNimNumber == first + count
        && cards == (if isInitialLoad then [] else old(cards)) + NimRange(nimPrefix, first, count)
    {
      if isInitialLoad {
        cards := [];
        nimPrefix := FormPrefix(form);
        currentNimNumber := form.nimStart;
      }
      ghost var before, start, prefix := cards, currentNimNumber, nimPrefix;
      assert before == (if isInitialLoad then [] else old(cards));
      assert start == (if isInitialLoad then form.nimStart else old(currentNimNumber));
      var nimEnd := currentNimNumber + count;
      var i := currentNimNumber;
      while i < nimEnd
        invariant start <= i <= nimEnd
        invariant currentNimNumber == start && nimPrefix == prefix
        invariant cards == before + NimRange(nimPrefix, start, i - start)
      {
        var nimLengkap := Nim(nimPrefix, i);
        ghost var run := NimRange(prefix, start, i - start);
        NimRangeSnoc(prefix, start, i - start);
        assert run + [nimLengkap] == NimRange(prefix, start, i - start + 1);
        AppendAssociates(before, run, [nimLengkap]);
        cards := cards + [nimLengkap];
        i := i + 1;
      }
      assert cards == before + NimRange(prefix, start, count);
      currentNimNumber := nimEnd;
    }
  }

  /** The Generate button followed by Load More, with the same count typed
      in the form: the grid holds one contiguous run from the start number
      and the cursor sits just past it. */
  method GenerateThenLoadMore(form: Form, count: nat) returns (album: Album)
    ensures album.nimPrefix == FormPrefix(form)
    ensures album.cards == NimRange(album.nimPrefix, form.nimStart, count + count)
    ensures album.currentNimNumber == form.nimStart + count + count
  {
    album := new Album();
    album.LoadImages(count, true, form);
    ghost var first := album.cards;
    album.LoadImages(count, false, form);
    RunsJoin(album.nimPrefix, form.nimStart, count, first, album.cards);
  }
}

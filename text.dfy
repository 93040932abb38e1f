/** Strings as the JavaScript built-ins used by the front end see them:
    decimal rendering of a number, runs of zeros for padding, trim,
    split on a one-character separator, ASCII case mapping and includes. */
module Text {

  // ---------------------------------------------------------------------
  // Decimal digits: Number.prototype.toString() for a non-negative integer
  // ---------------------------------------------------------------------

  predicate IsDigit(c: char) { '0' <= c <= '9' }

  predicate AllDigits(s: string) { forall i | 0 <= i < |s| :: IsDigit(s[i]) }

  function DigitChar(d: nat): (c: char)
    requires d < 10
    ensures IsDigit(c)
  {
    (48 + d) as char
  }

  function DigitValue(c: char): (d: nat)
    requires IsDigit(c)
    ensures d < 10 && DigitChar(d) == c
  {
    c as int - 48
  }

  function Pow10(k: nat): (p: nat)
    ensures p >= 1
  {
    if k == 0 then 1 else 10 * Pow10(k - 1)
  }

  /** The shortest decimal rendering of `n`, as `n.toString()` gives it. */
  function Digits(n: nat): (s: string)
    ensures |s| >= 1 && AllDigits(s)
    ensures s[0] == '0' ==> n == 0
  {
    if n < 10 then [DigitChar(n)] else Digits(n / 10) + [DigitChar(n % 10)]
  }

  /** The number a string of decimal digits denotes (leading zeros allowed). */
  function ValueOf(s: string): nat
    requires AllDigits(s)
  {
    if s == [] then 0 else ValueOf(s[..|s| - 1]) * 10 + DigitValue(s[|s| - 1])
  }

  lemma {:induction false} ValueOfDigits(n: nat)
    ensures ValueOf(Digits(n)) == n
  {
    if n >= 10 {
      var s := Digits(n);
      assert s[..|s| - 1] == Digits(n / 10);
      ValueOfDigits(n / 10);
    }
  }

  /** A digit string can be read back only from the number it denotes:
      the rendering is injective. */
  lemma DigitsInjective(m: nat, n: nat)
    requires Digits(m) == Digits(n)
    ensures m == n
  {
    ValueOfDigits(m);
    ValueOfDigits(n);
  }

  function Zeros(k: nat): (z: string)
    ensures |z| == k && AllDigits(z)
    ensures forall i | 0 <= i < k :: z[i] == '0'
  {
    if k == 0 then [] else Zeros(k - 1) + ['0']
  }

  lemma {:induction false} ValueOfZeros(k: nat)
    ensures ValueOf(Zeros(k)) == 0
  {
    if k > 0 {
      assert Zeros(k)[..k - 1] == Zeros(k - 1);
      ValueOfZeros(k - 1);
    }
  }

  /** Leading zeros do not change the number a digit string denotes. */
  lemma {:induction false} ValueOfZerosPrefix(k: nat, s: string)
    requires AllDigits(s)
    ensures AllDigits(Zeros(k) + s) && ValueOf(Zeros(k) + s) == ValueOf(s)
    decreases |s|
  {
    var t := Zeros(k) + s;
    assert AllDigits(t);
    if s == [] {
      assert t == Zeros(k);
      ValueOfZeros(k);
    } else {
      assert t[..|t| - 1] == Zeros(k) + s[..|s| - 1];
      ValueOfZerosPrefix(k, s[..|s| - 1]);
    }
  }

  /** The rendering of `n` fits in `k` >= 1 characters exactly when n < 10^k. */
  lemma {:induction false} DigitsFit(n: nat, k: nat)
    requires k >= 1
    ensures |Digits(n)| <= k <==> n < Pow10(k)
    decreases n
  {
    if n >= 10 {
      assert |Digits(n)| == |Digits(n / 10)| + 1;
      if k == 1 {
        assert |Digits(n / 10)| >= 1;
      } else {
        DigitsFit(n / 10, k - 1);
        assert n / 10 < Pow10(k - 1) <==> n < Pow10(k);
      }
    }
  }

  // ---------------------------------------------------------------------
  // String.prototype.trim
  // ---------------------------------------------------------------------

  /** The characters JavaScript's trim removes: WhiteSpace (tab, vertical tab,
      form feed, no-break space, byte-order mark and every space separator)
      and LineTerminator (LF, CR, LS, PS). */
  predicate IsJsSpace(c: char)
  {
    c == '\t' || c == '\n' || c == '\U{000B}' || c == '\U{000C}' || c == '\r'
    || c == ' ' || c == '\U{00A0}' || c == '\U{1680}'
    || ('\U{2000}' <= c <= '\U{200A}')
    || c == '\U{2028}' || c == '\U{2029}' || c == '\U{202F}' || c == '\U{205F}'
    || c == '\U{3000}' || c == '\U{FEFF}'
  }

  predicate AllSpace(s: string) { forall i | 0 <= i < |s| :: IsJsSpace(s[i]) }

  /** The first index at or after `i` that is not white space. */
  function SkipSpaces(s: string, i: nat): (j: nat)
    requires i <= |s|
    ensures i <= j <= |s|
    ensures forall k | i <= k < j :: IsJsSpace(s[k])
    ensures j == |s| || !IsJsSpace(s[j])
    decreases |s| - i
  {
    if i < |s| && IsJsSpace(s[i]) then SkipSpaces(s, i + 1) else i
  }

  /** The end of `s[lo..j]` once its trailing white space is dropped. */
  function SkipSpacesBack(s: string, lo: nat, j: nat): (k: nat)
    requires lo <= j <= |s|
    ensures lo <= k <= j
    ensures forall m | k <= m < j :: IsJsSpace(s[m])
    ensures k == lo || !IsJsSpace(s[k - 1])
  {
    if j > lo && IsJsSpace(s[j - 1]) then SkipSpacesBack(s, lo, j - 1) else j
  }

  /** `s.trim()`: a contiguous piece of `s` such that what was removed on
      either side is all white space and the piece itself has no white space
      at either end. */
  function Trim(s: string): (r: string)
    ensures var a := SkipSpaces(s, 0);
      && a + |r| <= |s| && r == s[a..a + |r|]
      && (forall k | 0 <= k < a :: IsJsSpace(s[k]))
      && (forall k | a + |r| <= k < |s| :: IsJsSpace(s[k]))
    ensures r == [] || (!IsJsSpace(r[0]) && !IsJsSpace(r[|r| - 1]))
    ensures r == [] <==> AllSpace(s)
  {
    var a := SkipSpaces(s, 0);
    var b := SkipSpacesBack(s, a, |s|);
    assert a < b ==> !IsJsSpace(s[a]);
    s[a..b]
  }

  lemma TrimIdempotent(s: string)
    ensures Trim(Trim(s)) == Trim(s)
  {
    var t := Trim(s);
    if t != [] {
      assert SkipSpaces(t, 0) == 0;
      assert SkipSpacesBack(t, 0, |t|) == |t|;
    }
  }

  // ---------------------------------------------------------------------
  // String.prototype.split with a one-character separator, and its inverse
  // ---------------------------------------------------------------------

  function Join(parts: seq<string>, sep: char): string
    requires |parts| >= 1
  {
    if |parts| == 1 then parts[0] else parts[0] + [sep] + Join(parts[1..], sep)
  }

  /** `s.split(sep)`: the maximal separator-free pieces, in order.
      Consecutive separators give empty pieces and the empty string gives
      `[""]`. */
  function Split(s: string, sep: char): (parts: seq<string>)
    ensures |parts| >= 1
  {
    if s == [] then [""]
    else
      var rest := Split(s[1..], sep);
      if s[0] == sep then [""] + rest
      else [[s[0]] + rest[0]] + rest[1..]
  }

  /** No piece holds the separator. */
  lemma {:induction false} SplitPiecesFree(s: string, sep: char)
    ensures forall k | 0 <= k < |Split(s, sep)| :: sep !in Split(s, sep)[k]
    decreases |s|
  {
    if s != [] {
      SplitPiecesFree(s[1..], sep);
      var rest := Split(s[1..], sep);
      if s[0] != sep {
        assert sep !in [s[0]] + rest[0];
      }
    }
  }

  /** Joining the pieces with the separator gives the string back: no
      character is lost or added. */
  lemma {:induction false} JoinSplit(s: string, sep: char)
    ensures Join(Split(s, sep), sep) == s
    decreases |s|
  {
    if s != [] {
      var rest := Split(s[1..], sep);
      JoinSplit(s[1..], sep);
      assert s == [s[0]] + s[1..];
      if s[0] != sep {
        var parts := Split(s, sep);
        assert parts[1..] == rest[1..];
      }
    }
  }

  /** There is more than one piece exactly when the string holds a separator. */
  lemma {:induction false} SplitCount(s: string, sep: char)
    ensures |Split(s, sep)| == 1 <==> sep !in s
    decreases |s|
  {
    if s != [] {
      SplitCount(s[1..], sep);
      assert s == [s[0]] + s[1..];
    }
  }

  /** `s.lastIndexOf(c)` for a one-character argument: -1 when absent. */
  function LastIndexOf(s: string, c: char): (k: int)
    ensures -1 <= k < |s|
    ensures k >= 0 ==> s[k] == c
  {
    if s == [] then -1
    else
      var k := LastIndexOf(s[1..], c);
      if k >= 0 then
        assert s[k + 1] == s[1..][k];
        k + 1
      else if s[0] == c then 0
      else -1
  }

  /** No occurrence follows the one found. */
  lemma {:induction false} LastIndexOfIsLast(s: string, c: char)
    ensures forall j | LastIndexOf(s, c) < j < |s| :: s[j] != c
    decreases |s|
  {
    if s != [] {
      LastIndexOfIsLast(s[1..], c);
      var k := LastIndexOf(s[1..], c);
      assert forall j | k + 1 < j < |s| :: s[j] == s[1..][j - 1];
    }
  }

  /** The character is absent exactly when there is no last occurrence. */
  lemma LastIndexOfAbsent(s: string, c: char)
    ensures LastIndexOf(s, c) == -1 <==> c !in s
  {
    LastIndexOfIsLast(s, c);
  }

  /** Splitting undoes joining separator-free pieces: `Split` and `Join`
      are inverse. */
  lemma {:induction false} SplitJoin(parts: seq<string>, sep: char)
    requires |parts| >= 1
    requires forall k | 0 <= k < |parts| :: sep !in parts[k]
    ensures Split(Join(parts, sep), sep) == parts
    decreases |parts|, |parts[0]|
  {
    var p := parts[0];
    if |parts| == 1 {
      SplitFree(p, sep);
    } else if p == [] {
      var rest := Join(parts[1..], sep);
      assert Join(parts, sep) == [sep] + rest;
      assert ([sep] + rest)[1..] == rest;
      SplitJoin(parts[1..], sep);
      assert [""] + parts[1..] == parts;
    } else {
      var shorter := [p[1..]] + parts[1..];
      assert shorter[1..] == parts[1..];
      var j := Join(parts, sep);
      assert j == [p[0]] + Join(shorter, sep);
      assert j[1..] == Join(shorter, sep);
      SplitJoin(shorter, sep);
      assert [p[0]] + p[1..] == p;
      assert [[p[0]] + p[1..]] + parts[1..] == parts;
    }
  }

  lemma {:induction false} SplitFree(s: string, sep: char)
    requires sep !in s
    ensures Split(s, sep) == [s]
  {
    SplitCount(s, sep);
    JoinSplit(s, sep);
  }

  /** The first piece starts with the first character unless that is a
      separator. */
  lemma SplitFirst(s: string, sep: char)
    requires s != [] && s[0] != sep
    ensures Split(s, sep)[0] != [] && Split(s, sep)[0][0] == s[0]
  {
  }

  /** The last piece of `s.split(sep)`. */
  function LastPiece(s: string, sep: char): string
  {
    var parts := Split(s, sep);
    parts[|parts| - 1]
  }

  /** The last piece is everything after the last separator. */
  lemma {:induction false} SplitLast(s: string, sep: char)
    ensures LastPiece(s, sep) == s[LastIndexOf(s, sep) + 1..]
    decreases |s|
  {
    if s == [] {
      assert LastIndexOf(s, sep) == -1;
      assert LastPiece(s, sep) == [];
    } else {
      SplitLast(s[1..], sep);
      SplitLastCons(s, sep);
    }
  }

  /** One character put in front keeps the property. */
  lemma SplitLastCons(s: string, sep: char)
    requires s != []
    requires LastPiece(s[1..], sep) == s[1..][LastIndexOf(s[1..], sep) + 1..]
    ensures LastPiece(s, sep) == s[LastIndexOf(s, sep) + 1..]
  {
    if LastIndexOf(s[1..], sep) >= 0 {
      SplitLastLater(s, sep);
    } else if s[0] == sep {
      SplitLastFirst(s, sep);
    } else {
      SplitLastFree(s, sep);
    }
  }

  /** The last separator is in the tail. */
  lemma SplitLastLater(s: string, sep: char)
    requires s != [] && LastIndexOf(s[1..], sep) >= 0
    requires LastPiece(s[1..], sep) == s[1..][LastIndexOf(s[1..], sep) + 1..]
    ensures LastPiece(s, sep) == s[LastIndexOf(s, sep) + 1..]
  {
    var k := LastIndexOf(s[1..], sep);
    assert LastPiece(s, sep) == LastPiece(s[1..], sep) by {
      LastIndexOfAbsent(s[1..], sep);
      LastPieceStep(s, sep);
    }
    assert LastIndexOf(s, sep) == k + 1;
    assert s[1..][k + 1..] == s[k + 2..];
  }

  /** The only separator is the first character. */
  lemma SplitLastFirst(s: string, sep: char)
    requires s != [] && LastIndexOf(s[1..], sep) == -1 && s[0] == sep
    requires LastPiece(s[1..], sep) == s[1..][LastIndexOf(s[1..], sep) + 1..]
    ensures LastPiece(s, sep) == s[LastIndexOf(s, sep) + 1..]
  {
    assert LastPiece(s, sep) == LastPiece(s[1..], sep) by {
      LastPieceStep(s, sep);
    }
    assert LastIndexOf(s, sep) == 0;
  }

  /** There is no separator. */
  lemma SplitLastFree(s: string, sep: char)
    requires s != [] && LastIndexOf(s[1..], sep) == -1 && s[0] != sep
    ensures LastPiece(s, sep) == s[LastIndexOf(s, sep) + 1..]
  {
    assert LastIndexOf(s, sep) == -1;
    LastIndexOfAbsent(s, sep);
    LastPieceStep(s, sep);
  }

  /** How the last piece changes when one character is put in front. */
  lemma LastPieceStep(s: string, sep: char)
    requires s != []
    ensures sep in s[1..] || s[0] == sep ==> LastPiece(s, sep) == LastPiece(s[1..], sep)
    ensures sep !in s ==> LastPiece(s, sep) == s
  {
    SplitCount(s[1..], sep);
    if sep !in s {
      SplitFree(s, sep);
    } else if sep !in s[1..] {
      SplitFree(s[1..], sep);
    }
  }

  // ---------------------------------------------------------------------
  // Case mapping (ASCII letters) and String.prototype.includes
  // ---------------------------------------------------------------------

  function UpperChar(c: char): char
  {
    if 'a' <= c <= 'z' then (c as int - 32) as char else c
  }

  function LowerChar(c: char): char
  {
    if 'A' <= c <= 'Z' then (c as int + 32) as char else c
  }

  function Upper(s: string): (r: string)
    ensures |r| == |s| && forall i | 0 <= i < |s| :: r[i] == UpperChar(s[i])
  {
    seq(|s|, i requires 0 <= i < |s| => UpperChar(s[i]))
  }

  function Lower(s: string): (r: string)
    ensures |r| == |s| && forall i | 0 <= i < |s| :: r[i] == LowerChar(s[i])
  {
    seq(|s|, i requires 0 <= i < |s| => LowerChar(s[i]))
  }

  /** `s.charAt(0)`: the first character, or "" for the empty string. */
  function CharAt0(s: string): (r: string)
    ensures |r| == (if s == [] then 0 else 1) && r <= s
  {
    if s == [] then "" else [s[0]]
  }

  /** `s.includes(t)`: `t` occurs in `s` at some position. */
  function Includes(s: string, t: string): (b: bool)
    ensures b ==> |t| <= |s|
    decreases |s|
  {
    if |t| > |s| then false
    else if t <= s then true
    else Includes(s[1..], t)
  }

  /** `Includes` holds exactly when `t` starts at some position of `s`. */
  lemma {:induction false} IncludesIff(s: string, t: string)
    ensures Includes(s, t) <==> exists i | 0 <= i <= |s| - |t| :: t <= s[i..]
    decreases |s|
  {
    if |t| <= |s| {
      if t <= s {
        assert t <= s[0..];
      } else {
        IncludesIff(s[1..], t);
        IncludesShift(s, t);
      }
    }
  }

  /** When `t` does not start `s`, it occurs in `s` exactly when it occurs
      in the tail. */
  lemma IncludesShift(s: string, t: string)
    requires |t| <= |s| && !(t <= s)
    ensures (exists i | 0 <= i <= |s| - |t| :: t <= s[i..]) <==>
            (exists i | 0 <= i <= |s[1..]| - |t| :: t <= s[1..][i..])
  {
    if exists i | 0 <= i <= |s[1..]| - |t| :: t <= s[1..][i..] {
      var i :| 0 <= i <= |s[1..]| - |t| && t <= s[1..][i..];
      OccursLater(s, t, i);
    }
    if exists i | 0 <= i <= |s| - |t| :: t <= s[i..] {
      var i :| 0 <= i <= |s| - |t| && t <= s[i..];
      OccursInTail(s, t, i);
    }
  }

  lemma OccursLater(s: string, t: string, i: nat)
    requires s != [] && i <= |s[1..]| - |t| && t <= s[1..][i..]
    ensures exists j | 0 <= j <= |s| - |t| :: t <= s[j..]
  {
    assert s[1..][i..] == s[i + 1..];
  }

  lemma OccursInTail(s: string, t: string, i: nat)
    requires !(t <= s) && i <= |s| - |t| && t <= s[i..]
    ensures exists j | 0 <= j <= |s[1..]| - |t| :: t <= s[1..][j..]
  {
    assert i != 0;
    assert s[1..][i - 1..] == s[i..];
  }
}

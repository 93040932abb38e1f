/** JavaScript's `encodeURIComponent`: every character outside the unreserved
    set is written as the percent-escaped bytes of its UTF-8 encoding. */
module Uri {

  /** The characters `encodeURIComponent` leaves as they are. */
  predicate IsUnreserved(c: char)
  {
    ('A' <= c <= 'Z') || ('a' <= c <= 'z') || ('0' <= c <= '9')
    || c == '-' || c == '_' || c == '.' || c == '!' || c == '~'
    || c == '*' || c == '\'' || c == '(' || c == ')'
  }

  predicate IsUpperHex(c: char) { ('0' <= c <= '9') || ('A' <= c <= 'F') }

  /** A character that can occur in the output of `encodeURIComponent`. */
  predicate IsEncodedChar(c: char) { IsUnreserved(c) || c == '%' || IsUpperHex(c) }

  function HexDigit(d: nat): (c: char)
    requires d < 16
    ensures IsUpperHex(c)
  {
    if d < 10 then (48 + d) as char else (55 + d) as char
  }

  /** The code point a well-formed UTF-8 sequence of one to four bytes stands for. */
  function Utf8Value(bytes: seq<nat>): int
    requires 1 <= |bytes| <= 4
  {
    var b := seq(|bytes|, i requires 0 <= i < |bytes| => bytes[i] as int);
    if |b| == 1 then b[0]
    else if |b| == 2 then (b[0] - 0xC0) * 64 + (b[1] - 0x80)
    else if |b| == 3 then (b[0] - 0xE0) * 4096 + (b[1] - 0x80) * 64 + (b[2] - 0x80)
    else (b[0] - 0xF0) * 262144 + (b[1] - 0x80) * 4096 + (b[2] - 0x80) * 64 + (b[3] - 0x80)
  }

  /** The UTF-8 encoding of one Unicode scalar value: the shortest form, a
      lead byte announcing the length followed by continuation bytes, and it
      decodes back to the same code point. */
  function Utf8(c: char): (bytes: seq<nat>)
    ensures |bytes| == (if c as int < 0x80 then 1 else if c as int < 0x800 then 2
                        else if c as int < 0x10000 then 3 else 4)
    ensures forall i | 0 <= i < |bytes| :: bytes[i] < 256
    ensures |bytes| == 1 ==> bytes[0] < 0x80
    ensures |bytes| == 2 ==> 0xC0 <= bytes[0] < 0xE0
    ensures |bytes| == 3 ==> 0xE0 <= bytes[0] < 0xF0
    ensures |bytes| == 4 ==> 0xF0 <= bytes[0] < 0xF8
    ensures forall i | 1 <= i < |bytes| :: 0x80 <= bytes[i] < 0xC0
    ensures Utf8Value(bytes) == c as int
  {
    var v := c as int;
    if v < 0x80 then [v]
    else if v < 0x800 then
      Utf8Two(v);
      [0xC0 + v / 64, 0x80 + v % 64]
    else if v < 0x10000 then
      Utf8Three(v);
      [0xE0 + v / 4096, 0x80 + (v / 64) % 64, 0x80 + v % 64]
    else
      Utf8Four(v);
      [0xF0 + v / 262144, 0x80 + (v / 4096) % 64, 0x80 + (v / 64) % 64, 0x80 + v % 64]
  }

  lemma Utf8Two(v: nat)
    requires 0x80 <= v < 0x800
    ensures 0xC0 <= 0xC0 + v / 64 < 0xE0
    ensures Utf8Value([0xC0 + v / 64, 0x80 + v % 64]) == v
  {
    assert v == (v / 64) * 64 + v % 64;
  }

  lemma Utf8Three(v: nat)
    requires 0x800 <= v < 0x10000
    ensures 0xE0 <= 0xE0 + v / 4096 < 0xF0
    ensures Utf8Value([0xE0 + v / 4096, 0x80 + (v / 64) % 64, 0x80 + v % 64]) == v
  {
    var q := v / 64;
    assert v == q * 64 + v % 64;
    assert q == (q / 64) * 64 + q % 64;
    assert q / 64 == v / 4096;
  }

  lemma Utf8Four(v: nat)
    requires 0x10000 <= v < 0x110000
    ensures 0xF0 <= 0xF0 + v / 262144 < 0xF8
    ensures Utf8Value([0xF0 + v / 262144, 0x80 + (v / 4096) % 64, 0x80 + (v / 64) % 64, 0x80 + v % 64]) == v
  {
    var q := v / 64;
    var q2 := q / 64;
    assert v == q * 64 + v % 64;
    assert q == q2 * 64 + q % 64;
    assert q2 == (q2 / 64) * 64 + q2 % 64;
    assert q2 == v / 4096;
    assert q2 / 64 == v / 262144;
  }

  /** `%XY` for each byte, with upper-case hexadecimal digits. */
  function PercentEncode(bytes: seq<nat>): (r: string)
    requires forall i | 0 <= i < |bytes| :: bytes[i] < 256
    ensures |r| == 3 * |bytes|
    ensures forall i | 0 <= i < |r| :: IsEncodedChar(r[i]) && (r[i] == '%' <==> i % 3 == 0)
  {
    if bytes == [] then []
    else ['%', HexDigit(bytes[0] / 16), HexDigit(bytes[0] % 16)] + PercentEncode(bytes[1..])
  }

  function EncodeChar(c: char): (r: string)
    ensures IsUnreserved(c) ==> r == [c]
    ensures !IsUnreserved(c) ==> |r| >= 3 && r[0] == '%'
    ensures forall i | 0 <= i < |r| :: IsEncodedChar(r[i])
  {
    if IsUnreserved(c) then [c] else PercentEncode(Utf8(c))
  }

  /** `encodeURIComponent(s)`. The result holds only unreserved characters,
      `%` and hexadecimal digits, so it never contains a URL delimiter such
      as `/`, `:`, `?`, `&` or `=`; a string of unreserved characters is left
      unchanged, and nothing is ever dropped. */
  function EncodeURIComponent(s: string): (r: string)
    ensures |r| >= |s|
    ensures forall i | 0 <= i < |r| :: IsEncodedChar(r[i])
    ensures (forall i | 0 <= i < |s| :: IsUnreserved(s[i])) <==> r == s
  {
    if s == [] then []
    else
      var head := EncodeChar(s[0]);
      var tail := EncodeURIComponent(s[1..]);
      assert (head + tail == s) ==> IsUnreserved(s[0]) && tail == s[1..] by {
        if head + tail == s && IsUnreserved(s[0]) {
          assert (head + tail)[1..] == tail;
        }
      }
      head + tail
  }

  /** Encoding distributes over concatenation: it works character by character. */
  lemma {:induction false} EncodeAppend(a: string, b: string)
    ensures EncodeURIComponent(a + b) == EncodeURIComponent(a) + EncodeURIComponent(b)
    decreases |a|
  {
    if a == [] {
      assert a + b == b;
    } else {
      assert a + b != [];
      assert (a + b)[0] == a[0];
      assert (a + b)[1..] == a[1..] + b;
      EncodeAppend(a[1..], b);
    }
  }

  /** Each byte's two hexadecimal digits follow its `%`. */
  lemma {:induction false} PercentEncodeHex(bytes: seq<nat>, k: nat)
    requires forall i | 0 <= i < |bytes| :: bytes[i] < 256
    requires k < |bytes|
    ensures PercentEncode(bytes)[3 * k + 1] == HexDigit(bytes[k] / 16)
    ensures PercentEncode(bytes)[3 * k + 2] == HexDigit(bytes[k] % 16)
  {
    if k > 0 {
      PercentEncodeHex(bytes[1..], k - 1);
    }
  }

  /** Two escaped byte runs of the same length that start two equal strings
      are the same bytes, and what follows them is the same. */
  lemma PercentEncodeInjective(x: seq<nat>, y: seq<nat>, rx: string, ry: string)
    requires forall i | 0 <= i < |x| :: x[i] < 256
    requires forall i | 0 <= i < |y| :: y[i] < 256
    requires |x| == |y|
    requires PercentEncode(x) + rx == PercentEncode(y) + ry
    ensures x == y && rx == ry
  {
    var ex, ey := PercentEncode(x), PercentEncode(y);
    forall k | 0 <= k < |x|
      ensures x[k] == y[k]
    {
      PercentEncodeHex(x, k);
      PercentEncodeHex(y, k);
      assert ex[3 * k + 1] == (ex + rx)[3 * k + 1] == (ey + ry)[3 * k + 1] == ey[3 * k + 1];
      assert ex[3 * k + 2] == (ex + rx)[3 * k + 2] == (ey + ry)[3 * k + 2] == ey[3 * k + 2];
      HexByte(x[k], y[k]);
    }
    assert rx == (ex + rx)[|ex|..];
  }

  /** A byte is determined by its two hexadecimal digits. */
  lemma HexByte(x: nat, y: nat)
    requires x < 256 && y < 256
    requires HexDigit(x / 16) == HexDigit(y / 16) && HexDigit(x % 16) == HexDigit(y % 16)
    ensures x == y
  {
    assert x / 16 == y / 16 && x % 16 == y % 16;
    assert x == 16 * (x / 16) + x % 16;
    assert y == 16 * (y / 16) + y % 16;
  }

  /** The lead byte of a UTF-8 sequence fixes its length. */
  lemma Utf8LeadLength(c: char, d: char)
    requires Utf8(c)[0] == Utf8(d)[0]
    ensures |Utf8(c)| == |Utf8(d)|
  {
  }

  /** The escapes of two characters that start two equal strings: the first
      escaped byte fixes how many bytes follow, and those bytes decode back
      to the character. */
  lemma EscapesPrefixFree(c: char, d: char, rc: string, rd: string)
    requires PercentEncode(Utf8(c)) + rc == PercentEncode(Utf8(d)) + rd
    ensures c == d && rc == rd
  {
    var u, v := Utf8(c), Utf8(d);
    var ec, ed := PercentEncode(u), PercentEncode(v);
    PercentEncodeHex(u, 0);
    PercentEncodeHex(v, 0);
    assert ec[1] == (ec + rc)[1] == (ed + rd)[1] == ed[1];
    assert ec[2] == (ec + rc)[2] == (ed + rd)[2] == ed[2];
    HexByte(u[0], v[0]);
    Utf8LeadLength(c, d);
    PercentEncodeInjective(u, v, rc, rd);
    assert c as int == Utf8Value(u) == Utf8Value(v) == d as int;
  }

  /** No character's encoding is the start of another character's encoding:
      an unreserved character is never `%`, and escapes are prefix-free. */
  lemma EncodeCharPrefixFree(c: char, d: char, rc: string, rd: string)
    requires EncodeChar(c) + rc == EncodeChar(d) + rd
    ensures c == d && rc == rd
  {
    var ec, ed := EncodeChar(c), EncodeChar(d);
    assert ec[0] == (ec + rc)[0] == (ed + rd)[0] == ed[0];
    if IsUnreserved(c) || IsUnreserved(d) {
      assert rc == (ec + rc)[1..];
      assert rd == (ed + rd)[1..];
    } else {
      EscapesPrefixFree(c, d, rc, rd);
    }
  }

  /** `encodeURIComponent` loses nothing: different strings encode
      differently, so the encoded text determines the original. */
  lemma {:induction false} EncodeInjective(a: string, b: string)
    requires EncodeURIComponent(a) == EncodeURIComponent(b)
    ensures a == b
    decreases |a|
  {
    if a != [] {
      assert b != [];
      EncodeCharPrefixFree(a[0], b[0], EncodeURIComponent(a[1..]), EncodeURIComponent(b[1..]));
      EncodeInjective(a[1..], b[1..]);
      assert a == [a[0]] + a[1..] && b == [b[0]] + b[1..];
    }
  }
}

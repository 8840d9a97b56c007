/** Ruby strings as the byte sequences they hold, and the handful of String
    methods the signer calls: `downcase`, `strip`, `join`, `end_with?`,
    `Integer#to_s` and the zero padding of `strftime`. */
module ByteStrings {

  /** One byte of a string. `String#bytesize` is the length of the sequence. */
  type Byte = c: char | c as int < 256 witness 'a'
  type Bytes = seq<Byte>

  // ---------------------------------------------------------------------
  // downcase

  predicate IsAsciiUpper(c: Byte) {
    'A' <= c <= 'Z'
  }

  /** ASCII case mapping of one byte; every other byte is left alone. */
  function DowncaseByte(c: Byte): (d: Byte)
    ensures !IsAsciiUpper(d)
    ensures IsAsciiUpper(c) ==> d as int == c as int + 32
    ensures !IsAsciiUpper(c) ==> d == c
  {
    if IsAsciiUpper(c) then (c as int + 32) as char else c
  }

  function Downcase(s: Bytes): (r: Bytes)
    ensures |r| == |s|
    ensures forall i :: 0 <= i < |s| ==> r[i] == DowncaseByte(s[i])
  {
    seq(|s|, i requires 0 <= i < |s| => DowncaseByte(s[i]))
  }

  lemma DowncaseIdempotent(s: Bytes)
    ensures Downcase(Downcase(s)) == Downcase(s)
  {
  }

  // ---------------------------------------------------------------------
  // strip

  /** The bytes `String#strip` removes: NUL, tab, LF, VT, FF, CR and space. */
  predicate IsStripSpace(c: Byte) {
    c as int == 0 || 9 <= c as int <= 13 || c == ' '
  }

  function LeadingSpaces(s: Bytes): (n: nat)
    ensures n <= |s|
    ensures forall i :: 0 <= i < n ==> IsStripSpace(s[i])
    ensures n < |s| ==> !IsStripSpace(s[n])
  {
    if s == [] || !IsStripSpace(s[0]) then 0 else 1 + LeadingSpaces(s[1..])
  }

  function TrailingSpaces(s: Bytes): (n: nat)
    ensures n <= |s|
    ensures forall i :: |s| - n <= i < |s| ==> IsStripSpace(s[i])
    ensures n < |s| ==> !IsStripSpace(s[|s| - 1 - n])
  {
    if s == [] || !IsStripSpace(s[|s| - 1]) then 0 else 1 + TrailingSpaces(s[..|s| - 1])
  }

  /** `String#strip`: `s` without its leading and trailing strip-space
      bytes. The result is the infix of `s` that starts after the leading
      run (`LeadingSpaces` says every byte before it is one), is followed
      only by strip-space bytes, and neither starts nor ends with one. */
  function Strip(s: Bytes): (r: Bytes)
    ensures r == [] || (!IsStripSpace(r[0]) && !IsStripSpace(r[|r| - 1]))
    ensures LeadingSpaces(s) + |r| <= |s|
    ensures r == s[LeadingSpaces(s)..LeadingSpaces(s) + |r|]
    ensures forall k :: LeadingSpaces(s) + |r| <= k < |s| ==> IsStripSpace(s[k])
  {
    var n := LeadingSpaces(s);
    if n == |s| then [] else s[n..|s| - TrailingSpaces(s)]
  }

  /** Strip-space bytes around a core that neither starts nor ends with one
      are exactly what `strip` removes. */
  lemma StripPadded(a: Bytes, b: Bytes, c: Bytes)
    requires Every(a, IsStripSpace) && Every(c, IsStripSpace)
    requires b == [] || (!IsStripSpace(b[0]) && !IsStripSpace(b[|b| - 1]))
    ensures Strip(a + b + c) == b
  {
    var s := a + b + c;
    var n := LeadingSpaces(s);
    var r := Strip(s);
    if b != [] {
      assert s[|a|] == b[0];
      assert n == |a|;
      assert s[|a| + |b| - 1] == b[|b| - 1];
      assert |r| == |b|;
    }
  }

  lemma StripUnspaced(s: Bytes)
    requires s != [] ==> !IsStripSpace(s[0]) && !IsStripSpace(s[|s| - 1])
    ensures Strip(s) == s
  {
    if s != [] {
      assert LeadingSpaces(s) == 0;
      assert s[0..] == s;
      assert TrailingSpaces(s) == 0;
    }
  }

  // ---------------------------------------------------------------------
  // join and end_with?

  /** `Array#join(sep)`. */
  function Join(parts: seq<Bytes>, sep: Bytes): (r: Bytes)
  {
    if |parts| == 0 then []
    else if |parts| == 1 then parts[0]
    else parts[0] + sep + Join(parts[1..], sep)
  }

  /** Joining one more part adds the separator and the part at the end. */
  lemma {:induction false} JoinSnoc(parts: seq<Bytes>, sep: Bytes, last: Bytes)
    requires |parts| >= 1
    ensures Join(parts + [last], sep) == Join(parts, sep) + sep + last
    decreases |parts|
  {
    var all := parts + [last];
    assert all[1..] == parts[1..] + [last];
    if |parts| > 1 {
      JoinSnoc(parts[1..], sep, last);
    }
  }

  predicate Every(s: Bytes, p: Byte -> bool) {
    forall i :: 0 <= i < |s| ==> p(s[i])
  }

  lemma EveryAppend(a: Bytes, b: Bytes, p: Byte -> bool)
    ensures Every(a + b, p) <==> Every(a, p) && Every(b, p)
  {
    if Every(a + b, p) {
      forall i | 0 <= i < |a| ensures p(a[i]) {
        assert (a + b)[i] == a[i];
      }
      forall i | 0 <= i < |b| ensures p(b[i]) {
        assert (a + b)[|a| + i] == b[i];
      }
    }
  }

  /** Joining parts and a separator whose bytes all satisfy `p` gives a
      string whose bytes all do. */
  lemma {:induction false} EveryJoin(parts: seq<Bytes>, sep: Bytes, p: Byte -> bool)
    requires forall k :: 0 <= k < |parts| ==> Every(parts[k], p)
    requires Every(sep, p)
    ensures Every(Join(parts, sep), p)
    decreases |parts|
  {
    if |parts| > 1 {
      EveryJoin(parts[1..], sep, p);
      EveryAppend(parts[0], sep, p);
      EveryAppend(parts[0] + sep, Join(parts[1..], sep), p);
    }
  }

  /** The index of the first byte satisfying `p`, or `|s|` when none does. */
  function FindFirst(s: Bytes, p: Byte -> bool): (i: nat)
    ensures i <= |s|
    ensures i < |s| ==> p(s[i])
    ensures forall j :: 0 <= j < i ==> !p(s[j])
  {
    if s == [] || p(s[0]) then 0 else 1 + FindFirst(s[1..], p)
  }

  predicate EndsWith(s: Bytes, suffix: Bytes) {
    |suffix| <= |s| && s[|s| - |suffix|..] == suffix
  }

  predicate StartsWith(s: Bytes, prefix: Bytes) {
    |prefix| <= |s| && s[..|prefix|] == prefix
  }

  /** No byte of `s` satisfies `p`. */
  predicate NoneOf(s: Bytes, p: Byte -> bool) {
    forall i :: 0 <= i < |s| ==> !p(s[i])
  }

  predicate IsColon(c: Byte) { c == ':' }
  predicate IsSemicolon(c: Byte) { c == ';' }

  lemma FindFirstAfter(a: Bytes, b: Bytes, p: Byte -> bool)
    requires NoneOf(a, p)
    requires b != [] && p(b[0])
    ensures FindFirst(a + b, p) == |a|
  {
    var i := FindFirst(a + b, p);
    assert (a + b)[|a|] == b[0];
  }

  /** `s` cut before its first byte satisfying `p`. */
  function Cut(s: Bytes, p: Byte -> bool): (r: (Bytes, Bytes))
    ensures r.0 + r.1 == s
    ensures NoneOf(r.0, p)
    ensures r.1 == [] || p(r.1[0])
  {
    var i := FindFirst(s, p);
    assert s == s[..i] + s[i..];
    (s[..i], s[i..])
  }

  /** The cut is unique: it is the split of `s` with the properties above. */
  lemma CutOf(a: Bytes, b: Bytes, p: Byte -> bool)
    requires NoneOf(a, p)
    requires b == [] || p(b[0])
    ensures Cut(a + b, p) == (a, b)
  {
    if b != [] {
      assert (a + b)[|a|] == b[0];
    }
    var i := FindFirst(a + b, p);
    assert i == |a|;
    assert (a + b)[..i] == a && (a + b)[i..] == b;
  }

  // ---------------------------------------------------------------------
  // split

  /** `s.split(sep, -1)` for a one-byte separator given as the predicate `p`:
      the pieces between separators, empty ones included. */
  function Split(s: Bytes, p: Byte -> bool): (pieces: seq<Bytes>)
    ensures |pieces| >= 1
    decreases |s|
  {
    var i := FindFirst(s, p);
    if i == |s| then [s] else [s[..i]] + Split(s[i + 1..], p)
  }

  /** Splitting undoes joining with a one-byte separator when no part holds
      a separator byte. */
  lemma {:induction false} SplitJoin(parts: seq<Bytes>, sep: Bytes, p: Byte -> bool)
    requires |parts| >= 1
    requires |sep| == 1 && p(sep[0])
    requires forall k :: 0 <= k < |parts| ==> NoneOf(parts[k], p)
    ensures Split(Join(parts, sep), p) == parts
    decreases |parts|
  {
    var s := Join(parts, sep);
    if |parts| == 1 {
      assert FindFirst(s, p) == |s|;
    } else {
      var p0 := parts[0];
      var rest := Join(parts[1..], sep);
      assert s == p0 + (sep + rest);
      FindFirstAfter(p0, sep + rest, p);
      var i := FindFirst(s, p);
      assert s[..i] == p0;
      assert s[i + 1..] == rest;
      SplitJoin(parts[1..], sep, p);
      assert Split(s, p) == [p0] + Split(rest, p);
      assert parts == [p0] + parts[1..];
    }
  }

  // ---------------------------------------------------------------------
  // decimal rendering (`Integer#to_s`) and its inverse

  predicate IsDigit(c: Byte) {
    '0' <= c <= '9'
  }

  predicate AllDigits(s: Bytes) {
    forall i :: 0 <= i < |s| ==> IsDigit(s[i])
  }

  function DigitChar(d: nat): (c: Byte)
    requires d < 10
    ensures IsDigit(c)
  {
    ('0' as int + d) as char
  }

  function DigitValue(c: Byte): (d: nat)
    requires IsDigit(c)
    ensures d < 10 && DigitChar(d) == c
  {
    c as int - '0' as int
  }

  /** `Integer#to_s` on a non-negative integer: digits, most significant first,
      no leading zero. */
  function NatToDecimal(n: nat): (r: Bytes)
    ensures |r| >= 1 && AllDigits(r)
    ensures |r| > 1 ==> r[0] != '0'
    decreases n
  {
    if n < 10 then [DigitChar(n)] else NatToDecimal(n / 10) + [DigitChar(n % 10)]
  }

  /** `Integer#to_s` on any integer: a `-` sign before the digits of |i|. */
  function IntToDecimal(i: int): (r: Bytes)
    ensures |r| >= 1
    ensures i >= 0 ==> AllDigits(r)
    ensures i < 0 ==> r[0] == '-' && AllDigits(r[1..])
    ensures i >= 0 ==> DecimalValue(r) == i
    ensures i < 0 ==> DecimalValue(r[1..]) == -i
  {
    if i < 0 then
      var digits := NatToDecimal(-i);
      DecimalRoundTrip(-i);
      assert ("-" + digits)[1..] == digits;
      "-" + digits
    else
      DecimalRoundTrip(i);
      NatToDecimal(i)
  }

  /** The value a string of decimal digits denotes. */
  function DecimalValue(s: Bytes): nat
    requires AllDigits(s)
  {
    if s == [] then 0 else 10 * DecimalValue(s[..|s| - 1]) + DigitValue(s[|s| - 1])
  }

  lemma {:induction false} DecimalRoundTrip(n: nat)
    ensures DecimalValue(NatToDecimal(n)) == n
    decreases n
  {
    var r := NatToDecimal(n);
    if n >= 10 {
      DecimalRoundTrip(n / 10);
      assert r[..|r| - 1] == NatToDecimal(n / 10);
    }
  }

  /** The `%0wd` padding of `strftime`: zeros on the left up to width `w`;
      a longer rendering is never cut. */
  function PadLeft(s: Bytes, w: nat): (r: Bytes)
    ensures |r| == if |s| < w then w else |s|
    ensures EndsWith(r, s)
    ensures forall i :: 0 <= i < |r| - |s| ==> r[i] == '0'
  {
    if |s| < w then seq(w - |s|, _ => '0') + s else s
  }

  lemma {:induction false} LeadingZeroValue(s: Bytes)
    requires AllDigits(s)
    ensures AllDigits("0" + s) && DecimalValue("0" + s) == DecimalValue(s)
    decreases |s|
  {
    var t := "0" + s;
    if s != [] {
      assert t[..|t| - 1] == "0" + s[..|s| - 1];
      LeadingZeroValue(s[..|s| - 1]);
    }
  }

  lemma {:induction false} PaddedValue(s: Bytes, w: nat)
    requires AllDigits(s)
    ensures AllDigits(PadLeft(s, w)) && DecimalValue(PadLeft(s, w)) == DecimalValue(s)
    decreases w - |s|
  {
    if |s| < w {
      LeadingZeroValue(s);
      PaddedValue("0" + s, w);
      PadOneZero(s, w);
    }
  }

  /** Padding is the same whether or not the first zero is already there. */
  lemma PadOneZero(s: Bytes, w: nat)
    requires |s| < w
    ensures PadLeft(s, w) == PadLeft("0" + s, w)
  {
    var a, b := PadLeft(s, w), PadLeft("0" + s, w);
    forall i | 0 <= i < w ensures a[i] == b[i] {
      if i >= w - |s| {
        assert a[i] == s[i - (w - |s|)] == b[i];
      }
    }
  }

  /** Two zero-padded renderings of non-negative integers are equal exactly
      when the integers are. */
  lemma PaddedDecimalInjective(m: nat, n: nat, w: nat)
    ensures PadLeft(NatToDecimal(m), w) == PadLeft(NatToDecimal(n), w) <==> m == n
  {
    PaddedValue(NatToDecimal(m), w);
    PaddedValue(NatToDecimal(n), w);
    DecimalRoundTrip(m);
    DecimalRoundTrip(n);
  }

  lemma {:induction false} DecimalLength(n: nat, k: nat)
    requires n < Pow10(k)
    ensures |NatToDecimal(n)| <= if k == 0 then 1 else k
    decreases n
  {
    if n >= 10 {
      DecimalLength(n / 10, k - 1);
    }
  }

  function Pow10(k: nat): (p: nat)
    ensures p >= 1
  {
    if k == 0 then 1 else 10 * Pow10(k - 1)
  }
}

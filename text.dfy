/** Text helpers the bot's replies and command matching rely on: decimal
    rendering of numbers (JavaScript template literals), String.prototype.trim
    and String.prototype.toLowerCase. */
module Text {

  predicate IsDigit(c: char) {
    '0' <= c <= '9'
  }

  predicate IsLowerLetter(c: char) {
    'a' <= c <= 'z'
  }

  predicate AllDigits(s: string) {
    forall i :: 0 <= i < |s| ==> IsDigit(s[i])
  }

  function DigitChar(d: nat): (c: char)
    requires d < 10
    ensures IsDigit(c)
    ensures c as int - '0' as int == d
  {
    ('0' as int + d) as char
  }

  function DigitValue(c: char): (d: nat)
    requires IsDigit(c)
    ensures d < 10 && DigitChar(d) == c
  {
    c as int - '0' as int
  }

  /** Decimal rendering of a non-negative number, as `${n}` prints it. */
  function NatToString(n: nat): (s: string)
    ensures |s| > 0 && AllDigits(s)
    ensures s[0] == '0' ==> n == 0
  {
    if n < 10 then [DigitChar(n)] else NatToString(n / 10) + [DigitChar(n % 10)]
  }

  /** The reading of a string of decimal digits; the partner of NatToString. */
  function ParseNat(s: string): nat
    requires AllDigits(s)
  {
    if s == [] then 0 else ParseNat(s[..|s| - 1]) * 10 + DigitValue(s[|s| - 1])
  }

  lemma {:induction false} ParseNatToString(n: nat)
    ensures ParseNat(NatToString(n)) == n
  {
    if n >= 10 {
      var s := NatToString(n / 10);
      var t := s + [DigitChar(n % 10)];
      assert t[..|t| - 1] == s;
      ParseNatToString(n / 10);
    }
  }

  /** NatToString never renders two numbers alike. */
  lemma NatToStringInjective(m: nat, n: nat)
    requires NatToString(m) == NatToString(n)
    ensures m == n
  {
    ParseNatToString(m);
    ParseNatToString(n);
  }

  /** Decimal rendering of any integer, with a leading '-' for negatives. */
  function IntToString(i: int): (s: string)
    ensures |s| > 0
    ensures s[0] == '-' <==> i < 0
    ensures i >= 0 ==> s == NatToString(i)
  {
    if i < 0 then "-" + NatToString(-i) else NatToString(i)
  }

  function ParseInt(s: string): int
    requires s != [] && (if s[0] == '-' then AllDigits(s[1..]) else AllDigits(s))
  {
    if s[0] == '-' then -(ParseNat(s[1..]) as int) else ParseNat(s)
  }

  lemma IntToStringRoundTrip(i: int)
    ensures var s := IntToString(i);
      (if s[0] == '-' then AllDigits(s[1..]) else AllDigits(s)) && ParseInt(s) == i
  {
    if i < 0 {
      assert IntToString(i)[1..] == NatToString(-i);
      ParseNatToString(-i);
    } else {
      ParseNatToString(i);
    }
  }

  /** The code points String.prototype.trim removes: the WhiteSpace and
      LineTerminator productions of ECMAScript. */
  predicate IsJsWhitespace(c: char) {
    c == '\t' || c == '\n' || c == '\U{B}' || c == '\U{C}' || c == '\r' || c == ' '
    || c == '\U{A0}' || c == '\U{1680}' || ('\U{2000}' <= c <= '\U{200A}')
    || c == '\U{2028}' || c == '\U{2029}' || c == '\U{202F}' || c == '\U{205F}'
    || c == '\U{3000}' || c == '\U{FEFF}'
  }

  predicate AllWhitespace(s: string) {
    forall i :: 0 <= i < |s| ==> IsJsWhitespace(s[i])
  }

  /** The first index at or after i that does not hold whitespace (|s| when
      there is none). */
  function LeadingBlank(s: string, i: nat): (n: nat)
    requires i <= |s|
    ensures i <= n <= |s|
    ensures forall k :: i <= k < n ==> IsJsWhitespace(s[k])
    ensures n < |s| ==> !IsJsWhitespace(s[n])
    decreases |s| - i
  {
    if i < |s| && IsJsWhitespace(s[i]) then LeadingBlank(s, i + 1) else i
  }

  /** The end of s[..j] once its trailing whitespace is dropped. */
  function TrailingBlank(s: string, j: nat): (n: nat)
    requires j <= |s|
    ensures n <= j
    ensures forall k :: n <= k < j ==> IsJsWhitespace(s[k])
    ensures n > 0 ==> !IsJsWhitespace(s[n - 1])
  {
    if j > 0 && IsJsWhitespace(s[j - 1]) then TrailingBlank(s, j - 1) else j
  }

  /** String.prototype.trim: leading whitespace goes first, then trailing.
      The result is never longer than s and has no whitespace at either end. */
  function Trim(s: string): (r: string)
    ensures |r| <= |s|
    ensures r != [] ==> !IsJsWhitespace(r[0]) && !IsJsWhitespace(r[|r| - 1])
  {
    var t := s[LeadingBlank(s, 0)..];
    var r := t[..TrailingBlank(t, |t|)];
    assert r != [] ==> r[0] == t[0] && r[|r| - 1] == t[|r| - 1];
    r
  }

  /** The trimmed string is a slice s[i..j] with only whitespace outside it,
      and it neither starts nor ends with whitespace. */
  lemma TrimIsMaximalSlice(s: string)
    ensures var r := Trim(s);
      var i := LeadingBlank(s, 0);
      var j := i + |r|;
      && j <= |s| && r == s[i..j]
      && (forall k :: 0 <= k < i ==> IsJsWhitespace(s[k]))
      && (forall k :: j <= k < |s| ==> IsJsWhitespace(s[k]))
      && (r != [] ==> !IsJsWhitespace(r[0]) && !IsJsWhitespace(r[|r| - 1]))
  {
    var i := LeadingBlank(s, 0);
    var t := s[i..];
    var n := TrailingBlank(t, |t|);
    var r := t[..n];
    assert r == s[i..i + n];
    forall k | i + n <= k < |s|
      ensures IsJsWhitespace(s[k])
    {
      assert s[k] == t[k - i];
    }
    if r != [] {
      assert r[0] == s[i];
      assert r[n - 1] == t[n - 1];
    }
  }

  /** Trimming finds the text between any whitespace padding, however the
      string is cut: it is determined by the string's non-blank core. */
  lemma TrimPadded(pre: string, mid: string, post: string)
    requires AllWhitespace(pre) && AllWhitespace(post)
    requires mid != [] && !IsJsWhitespace(mid[0]) && !IsJsWhitespace(mid[|mid| - 1])
    ensures Trim(pre + mid + post) == mid
  {
    var s := pre + mid + post;
    var i := LeadingBlank(s, 0);
    assert s[|pre|] == mid[0];
    assert forall k :: 0 <= k < |pre| ==> s[k] == pre[k];
    assert i == |pre|;
    var t := s[i..];
    assert t == mid + post;
    var n := TrailingBlank(t, |t|);
    assert t[|mid| - 1] == mid[|mid| - 1];
    assert forall k :: |mid| <= k < |t| ==> t[k] == post[k - |mid|];
    assert n == |mid|;
    assert t[..n] == mid;
  }

  lemma AllWhitespaceConcat(a: string, b: string)
    requires AllWhitespace(a) && AllWhitespace(b)
    ensures AllWhitespace(a + b)
  {
    assert forall k :: 0 <= k < |a + b| ==> (a + b)[k] == if k < |a| then a[k] else b[k - |a|];
  }

  /** A string of whitespace only trims to the empty string. */
  lemma TrimAllBlank(s: string)
    requires AllWhitespace(s)
    ensures Trim(s) == []
  {
    assert LeadingBlank(s, 0) == |s|;
  }

  /** Any text is its trim with whitespace on either side. */
  lemma TrimSplit(msg: string) returns (a: string, b: string)
    ensures msg == a + Trim(msg) + b
    ensures AllWhitespace(a) && AllWhitespace(b)
  {
    TrimIsMaximalSlice(msg);
    var i := LeadingBlank(msg, 0);
    var j := i + |Trim(msg)|;
    a := msg[..i];
    b := msg[j..];
    assert msg == a + msg[i..j] + b;
  }

  lemma Regroup(p: string, a: string, r: string, b: string, q: string)
    ensures p + (a + r + b) + q == (p + a) + r + (b + q)
  {
  }

  /** Whitespace added around any text does not change its trim. */
  lemma TrimPadding(pre: string, msg: string, post: string)
    requires AllWhitespace(pre) && AllWhitespace(post)
    ensures Trim(pre + msg + post) == Trim(msg)
  {
    var a, b := TrimSplit(msg);
    var r := Trim(msg);
    var x := pre + a;
    var y := b + post;
    AllWhitespaceConcat(pre, a);
    AllWhitespaceConcat(b, post);
    Regroup(pre, a, r, b, post);
    if r == [] {
      assert x + r + y == x + y;
      AllWhitespaceConcat(x, y);
      TrimAllBlank(x + y);
    } else {
      TrimPadded(x, r, y);
    }
  }

  /** A string with no whitespace at either end is its own trim. */
  lemma TrimKeeps(s: string)
    requires s != [] && !IsJsWhitespace(s[0]) && !IsJsWhitespace(s[|s| - 1])
    ensures Trim(s) == s
  {
    TrimPadded([], s, []);
    assert [] + s + [] == s;
  }

  /** Trimming twice is trimming once. */
  lemma TrimIdempotent(s: string)
    ensures Trim(Trim(s)) == Trim(s)
  {
    TrimIsMaximalSlice(s);
    var r := Trim(s);
    if r != [] {
      TrimKeeps(r);
    }
  }

  /** The lower-case mapping of one code point, as far as it can turn a
      string into an ASCII command: 'A'..'Z' and U+212A KELVIN SIGN, whose
      lower case is 'k'. Every other code point is kept. */
  function LowerChar(c: char): char {
    if 'A' <= c <= 'Z' then (c as int + 32) as char
    else if c == '\U{212A}' then 'k'
    else c
  }

  /** String.prototype.toLowerCase, code point by code point. */
  function ToLower(s: string): (r: string)
    ensures |r| == |s|
    ensures forall i :: 0 <= i < |s| ==> r[i] == LowerChar(s[i])
  {
    if s == [] then [] else [LowerChar(s[0])] + ToLower(s[1..])
  }

  /** ToLower is determined code point by code point. */
  lemma ToLowerOf(s: string, t: string)
    requires |s| == |t| && forall i :: 0 <= i < |s| ==> LowerChar(s[i]) == t[i]
    ensures ToLower(s) == t
  {
  }

  /** Lower-casing leaves no upper-case ASCII letter and is idempotent. */
  lemma ToLowerIdempotent(s: string)
    ensures forall i :: 0 <= i < |s| ==> !('A' <= ToLower(s)[i] <= 'Z')
    ensures ToLower(ToLower(s)) == ToLower(s)
  {
    var r := ToLower(s);
    forall i | 0 <= i < |s|
      ensures !('A' <= r[i] <= 'Z') && LowerChar(r[i]) == r[i]
    {
      LowerCharFixed(s[i]);
    }
    var rr := ToLower(r);
    assert |rr| == |r|;
    assert forall i :: 0 <= i < |r| ==> rr[i] == r[i];
  }

  lemma LowerCharFixed(c: char)
    ensures !('A' <= LowerChar(c) <= 'Z')
    ensures LowerChar(LowerChar(c)) == LowerChar(c)
  {
  }

  /** Lower-casing never turns whitespace into a non-blank or back. */
  lemma LowerCharBlank(c: char)
    ensures IsJsWhitespace(LowerChar(c)) == IsJsWhitespace(c)
  {
  }

  lemma {:induction false} LeadingBlankLower(s: string, i: nat)
    requires i <= |s|
    ensures LeadingBlank(ToLower(s), i) == LeadingBlank(s, i)
    decreases |s| - i
  {
    if i < |s| {
      LowerCharBlank(s[i]);
      if IsJsWhitespace(s[i]) {
        LeadingBlankLower(s, i + 1);
      }
    }
  }

  lemma {:induction false} TrailingBlankLower(s: string, j: nat)
    requires j <= |s|
    ensures TrailingBlank(ToLower(s), j) == TrailingBlank(s, j)
  {
    if j > 0 {
      LowerCharBlank(s[j - 1]);
      if IsJsWhitespace(s[j - 1]) {
        TrailingBlankLower(s, j - 1);
      }
    }
  }

  /** Trimming and lower-casing commute, so msg.trim().toLowerCase() does
      not depend on the order of the two calls. */
  lemma TrimLower(s: string)
    ensures Trim(ToLower(s)) == ToLower(Trim(s))
  {
    var i := LeadingBlank(s, 0);
    LeadingBlankLower(s, 0);
    var t := s[i..];
    var lt := ToLower(s)[i..];
    ToLowerOf(t, lt);
    var n := TrailingBlank(t, |t|);
    TrailingBlankLower(t, |t|);
    ToLowerOf(t[..n], lt[..n]);
  }
}

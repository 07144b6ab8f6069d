/** The string operations of Rust's `str` that the modelled code relies on:
    substring search, `split` on a character, `trim`, the UTF-8 bytes of a
    string (`as_bytes`) and the decimal rendering of an integer (`format!("{}")`). */
module Text {
  import opened Machine

  // ---------------------------------------------------------------- search

  /** `t` occurs in `s` starting at index `i`. */
  predicate OccursAt(s: string, t: string, i: nat) {
    i + |t| <= |s| && s[i..i + |t|] == t
  }

  /** `s.contains(t)` for a string pattern `t`: try every start position in
      turn, from the left; the result says whether `t` occurs anywhere in `s`. */
  function Contains(s: string, t: string): (b: bool)
    ensures b <==> exists i: nat :: i <= |s| && OccursAt(s, t, i)
    decreases |s|
  {
    if |t| > |s| then false
    else if s[..|t|] == t then
      assert OccursAt(s, t, 0);
      true
    else
      var found := Contains(s[1..], t);
      ShiftOccurrence(s, t);
      found
  }

  /** When `t` does not start `s`, it occurs in `s` exactly when it occurs in
      the tail of `s`. */
  lemma ShiftOccurrence(s: string, t: string)
    requires |t| <= |s| && s[..|t|] != t
    ensures (exists i: nat :: i <= |s| && OccursAt(s, t, i))
        <==> (exists j: nat :: j <= |s[1..]| && OccursAt(s[1..], t, j))
  {
    if i: nat :| i <= |s| && OccursAt(s, t, i) {
      assert i != 0;
      var j := i - 1;
      assert s[1..][j..j + |t|] == s[i..i + |t|];
      assert OccursAt(s[1..], t, j);
    }
    if j: nat :| j <= |s[1..]| && OccursAt(s[1..], t, j) {
      var i := j + 1;
      assert s[i..i + |t|] == s[1..][j..j + |t|];
      assert OccursAt(s, t, i);
    }
  }

  /** Index of the first `c` in `s`, or `|s|` when there is none. */
  function IndexOf(s: string, c: char): (k: nat)
    ensures k <= |s|
    ensures k < |s| ==> s[k] == c
    ensures forall j :: 0 <= j < k ==> s[j] != c
    ensures k == |s| <==> c !in s
  {
    if |s| == 0 then 0
    else if s[0] == c then 0
    else 1 + IndexOf(s[1..], c)
  }

  // ---------------------------------------------------------------- split

  /** The pieces joined back with `sep` between each pair. */
  function Join(parts: seq<string>, sep: char): string
    requires |parts| >= 1
  {
    if |parts| == 1 then parts[0] else parts[0] + [sep] + Join(parts[1..], sep)
  }

  /** `s.split(sep)`, collected: the maximal stretches of `s` that hold no `sep`,
      in order. An empty string yields one empty piece, and a `sep` at either end
      yields an empty piece there. */
  function Split(s: string, sep: char): (parts: seq<string>)
    ensures |parts| >= 1
    ensures forall i :: 0 <= i < |parts| ==> sep !in parts[i]
    ensures Join(parts, sep) == s
    decreases |s|
  {
    var k := IndexOf(s, sep);
    if k == |s| then [s]
    else
      var rest := Split(s[k + 1..], sep);
      assert s == s[..k] + [sep] + s[k + 1..];
      [s[..k]] + rest
  }

  /** Splitting is the inverse of joining pieces that hold no separator. */
  lemma {:induction false} SplitJoin(parts: seq<string>, sep: char)
    requires |parts| >= 1
    requires forall i :: 0 <= i < |parts| ==> sep !in parts[i]
    ensures Split(Join(parts, sep), sep) == parts
    decreases |parts|
  {
    var s := Join(parts, sep);
    if |parts| == 1 {
      assert IndexOf(s, sep) == |s|;
    } else {
      var p := parts[0];
      var tail := Join(parts[1..], sep);
      assert s == p + [sep] + tail;
      assert s[|p|] == sep;
      assert forall j :: 0 <= j < |p| ==> s[j] == p[j];
      assert IndexOf(s, sep) == |p|;
      assert s[..|p|] == p;
      assert s[|p| + 1..] == tail;
      SplitJoin(parts[1..], sep);
      assert parts == [p] + parts[1..];
    }
  }

  // ---------------------------------------------------------------- trim

  /** Rust's `char::is_whitespace`: the characters with the Unicode
      White_Space property. */
  predicate IsWhitespace(c: char) {
    ('\t' <= c <= '\r') || c == ' ' || c == '\U{0085}' || c == '\U{00A0}'
    || c == '\U{1680}' || ('\U{2000}' <= c <= '\U{200A}') || c == '\U{2028}'
    || c == '\U{2029}' || c == '\U{202F}' || c == '\U{205F}' || c == '\U{3000}'
  }

  /** Neither end of `s` is whitespace. */
  predicate Trimmed(s: string) {
    |s| == 0 || (!IsWhitespace(s[0]) && !IsWhitespace(s[|s| - 1]))
  }

  /** Length of the whitespace run at the start of `s`. */
  function LeadingWhitespace(s: string): (n: nat)
    ensures n <= |s|
    ensures forall k :: 0 <= k < n ==> IsWhitespace(s[k])
    ensures n < |s| ==> !IsWhitespace(s[n])
  {
    if |s| == 0 || !IsWhitespace(s[0]) then 0 else 1 + LeadingWhitespace(s[1..])
  }

  /** Start of the whitespace run at the end of `s`. */
  function TrailingWhitespace(s: string): (m: nat)
    ensures m <= |s|
    ensures forall k :: m <= k < |s| ==> IsWhitespace(s[k])
    ensures 0 < m ==> !IsWhitespace(s[m - 1])
  {
    if |s| == 0 || !IsWhitespace(s[|s| - 1]) then |s| else TrailingWhitespace(s[..|s| - 1])
  }

  /** `s.trim()`: `s` without its leading and trailing whitespace. */
  function Trim(s: string): (t: string)
    ensures Trimmed(t)
    ensures |t| <= |s|
    ensures forall c :: c in t ==> c in s
    ensures Trimmed(s) ==> t == s
    ensures (forall k :: 0 <= k < |s| ==> IsWhitespace(s[k])) ==> t == []
    ensures exists n, m :: 0 <= n <= m <= |s| && t == s[n..m]
                           && (forall k :: 0 <= k < n ==> IsWhitespace(s[k]))
                           && (forall k :: m <= k < |s| ==> IsWhitespace(s[k]))
  {
    var m := TrailingWhitespace(s);
    var n := LeadingWhitespace(s[..m]);
    assert n < m ==> s[..m][n] == s[n];
    assert forall k :: 0 <= k < n ==> s[..m][k] == s[k];
    s[n..m]
  }

  /** Trimming never removes an occurrence of a pattern that starts and ends
      with a non-whitespace character. */
  lemma TrimKeepsOccurrence(s: string, w: string, i: nat)
    requires OccursAt(s, w, i)
    requires |w| > 0 && !IsWhitespace(w[0]) && !IsWhitespace(w[|w| - 1])
    ensures Contains(Trim(s), w)
  {
    var m := TrailingWhitespace(s);
    var n := LeadingWhitespace(s[..m]);
    assert s[i + |w| - 1] == w[|w| - 1];
    assert i + |w| <= m;
    assert s[..m][i] == s[i] == w[0];
    assert n <= i;
    SliceKeepsOccurrence(s, w, i, n, m);
    assert Trim(s) == s[n..m];
  }

  /** An occurrence inside the bounds of a slice is an occurrence in the slice. */
  lemma SliceKeepsOccurrence(s: string, w: string, i: nat, n: nat, m: nat)
    requires OccursAt(s, w, i)
    requires n <= i && i + |w| <= m <= |s|
    ensures OccursAt(s[n..m], w, i - n)
  {
    var t := s[n..m];
    var inner := t[i - n..i - n + |w|];
    assert forall k :: 0 <= k < |w| ==> inner[k] == t[i - n + k] == s[i + k];
    assert inner == s[i..i + |w|];
  }

  // ---------------------------------------------------------------- UTF-8

  /** How many bytes the UTF-8 sequence that starts with `lead` takes. */
  function SequenceLength(lead: byte): nat {
    if lead < 0x80 then 1
    else if lead < 0xE0 then 2
    else if lead < 0xF0 then 3
    else 4
  }

  /** The UTF-8 encoding of one Unicode scalar value (RFC 3629, section 3):
      the lead byte announces the length, and every other byte is a
      continuation byte. */
  function Utf8Char(c: char): (b: seq<byte>)
    ensures 1 <= |b| <= 4
    ensures (c as int) < 0x80 <==> |b| == 1
    ensures (c as int) < 0x80 ==> b == [c as int]
    ensures |b| > 1 ==> 0xC0 <= b[0]
    ensures SequenceLength(b[0]) == |b|
    ensures forall k :: 1 <= k < |b| ==> 0x80 <= b[k] < 0xC0
  {
    var n := c as int;
    if n < 0x80 then [n]
    else if n < 0x800 then [0xC0 + n / 0x40, 0x80 + n % 0x40]
    else if n < 0x1_0000 then [0xE0 + n / 0x1000, 0x80 + (n / 0x40) % 0x40, 0x80 + n % 0x40]
    else [0xF0 + n / 0x4_0000, 0x80 + (n / 0x1000) % 0x40, 0x80 + (n / 0x40) % 0x40, 0x80 + n % 0x40]
  }

  /** The code point one UTF-8 sequence denotes (the payload bits of its
      bytes, most significant first). */
  function SequenceValue(b: seq<byte>): int
    requires 1 <= |b| <= 4
  {
    var v := seq(|b|, k requires 0 <= k < |b| => b[k] as int);
    if |b| == 1 then v[0]
    else if |b| == 2 then (v[0] - 0xC0) * 0x40 + (v[1] - 0x80)
    else if |b| == 3 then (v[0] - 0xE0) * 0x1000 + (v[1] - 0x80) * 0x40 + (v[2] - 0x80)
    else (v[0] - 0xF0) * 0x4_0000 + (v[1] - 0x80) * 0x1000 + (v[2] - 0x80) * 0x40 + (v[3] - 0x80)
  }

  /** Decoding one sequence gives back the character that was encoded. */
  lemma SequenceValueOfUtf8Char(c: char)
    ensures SequenceValue(Utf8Char(c)) == c as int
  {
    var n := c as int;
    if n >= 0x1_0000 {
      assert n == n / 0x4_0000 * 0x4_0000 + (n / 0x1000) % 0x40 * 0x1000 + (n / 0x40) % 0x40 * 0x40 + n % 0x40;
    } else if n >= 0x800 {
      assert n == n / 0x1000 * 0x1000 + (n / 0x40) % 0x40 * 0x40 + n % 0x40;
    }
  }

  /** `s.as_bytes()`: the UTF-8 bytes of a Rust string. */
  function Utf8(s: string): (b: seq<byte>)
    ensures |s| <= |b| <= 4 * |s|
  {
    if s == [] then [] else Utf8Char(s[0]) + Utf8(s[1..])
  }

  /** The bytes of a concatenation are the concatenated bytes. */
  lemma {:induction false} Utf8Append(a: string, b: string)
    ensures Utf8(a + b) == Utf8(a) + Utf8(b)
  {
    if a == [] {
      assert a + b == b;
    } else {
      assert (a + b)[0] == a[0];
      assert (a + b)[1..] == a[1..] + b;
      Utf8Append(a[1..], b);
    }
  }

  /** ASCII text is its own encoding: one byte per character, equal to the
      character's code. */
  lemma {:induction false} Utf8Ascii(s: string)
    requires forall k :: 0 <= k < |s| ==> (s[k] as int) < 0x80
    ensures |Utf8(s)| == |s|
    ensures forall k :: 0 <= k < |s| ==> Utf8(s)[k] == s[k] as int
  {
    if s != [] {
      Utf8Ascii(s[1..]);
    }
  }

  /** Distinct strings have distinct UTF-8 bytes. */
  lemma {:induction false} Utf8Injective(a: string, b: string)
    requires Utf8(a) == Utf8(b)
    ensures a == b
  {
    if a == [] || b == [] {
      assert |Utf8(a)| == 0 || |Utf8(b)| == 0;
    } else {
      var ea, eb := Utf8Char(a[0]), Utf8Char(b[0]);
      var bytes := Utf8(a);
      assert bytes == ea + Utf8(a[1..]) && bytes == eb + Utf8(b[1..]);
      assert bytes[0] == ea[0] && bytes[0] == eb[0];
      assert |ea| == |eb|;
      assert ea == bytes[..|ea|] == eb;
      SequenceValueOfUtf8Char(a[0]);
      SequenceValueOfUtf8Char(b[0]);
      assert a[0] == b[0];
      assert Utf8(a[1..]) == bytes[|ea|..] == Utf8(b[1..]);
      Utf8Injective(a[1..], b[1..]);
      assert a == [a[0]] + a[1..] && b == [b[0]] + b[1..];
    }
  }

  // ---------------------------------------------------------------- decimal

  predicate IsDigit(c: char) { '0' as int <= c as int <= '9' as int }

  function DigitChar(d: int): (c: char)
    requires 0 <= d < 10
    ensures IsDigit(c) && c as int - '0' as int == d
  {
    ('0' as int + d) as char
  }

  /** The decimal digits of `n`, most significant first, without leading zeros. */
  function Digits(n: nat): (s: string)
    ensures |s| >= 1
    ensures forall k :: 0 <= k < |s| ==> IsDigit(s[k])
    ensures |s| > 1 ==> s[0] != '0'
  {
    if n < 10 then [DigitChar(n)] else Digits(n / 10) + [DigitChar(n % 10)]
  }

  /** The number a string of decimal digits denotes. */
  function DigitsValue(s: string): nat
    requires forall k :: 0 <= k < |s| ==> IsDigit(s[k])
  {
    if s == [] then 0
    else
      assert IsDigit(s[|s| - 1]);
      DigitsValue(s[..|s| - 1]) * 10 + (s[|s| - 1] as int - '0' as int)
  }

  lemma {:induction false} DigitsValueOfDigits(n: nat)
    ensures DigitsValue(Digits(n)) == n
  {
    if n >= 10 {
      var s := Digits(n);
      assert s[..|s| - 1] == Digits(n / 10);
      DigitsValueOfDigits(n / 10);
    }
  }

  /** `format!("{}", n)` for a signed integer: an optional `-` and the digits of |n|. */
  function Decimal(n: int): (s: string)
    ensures |s| >= 1
    ensures s[0] == '-' <==> n < 0
    ensures n >= 0 ==> forall k :: 0 <= k < |s| ==> IsDigit(s[k])
  {
    if n < 0 then "-" + Digits(-n) else Digits(n)
  }

  /** Distinct integers have distinct decimal renderings. */
  lemma DecimalInjective(a: int, b: int)
    requires Decimal(a) == Decimal(b)
    ensures a == b
  {
    var s := Decimal(a);
    if a < 0 {
      assert b < 0;
      assert s == "-" + Digits(-a) && s == "-" + Digits(-b);
      assert Digits(-a) == s[1..] == Digits(-b);
      DigitsValueOfDigits(-a);
      DigitsValueOfDigits(-b);
    } else {
      assert b >= 0;
      assert Digits(a) == Digits(b);
      DigitsValueOfDigits(a);
      DigitsValueOfDigits(b);
    }
  }
}

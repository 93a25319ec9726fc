/** The pieces of Rust's `str`, `String` and integer parsing that the HTTP
    message layer relies on: `trim`, `split(" ")`, `split_once`, `join`,
    `usize::from_str` and `String::from_utf8_lossy`. */
module Text {
  import opened Wrappers

  /** A byte of the connection's stream. */
  type byte = b: int | 0 <= b < 256

  const CRLF: string := "\r\n"

  /** One past `usize::MAX` on a 64-bit target. */
  const USIZE_BOUND: nat := 0x1_0000_0000_0000_0000

  // ---------------------------------------------------------------------------
  // Trimming

  /** The Unicode White_Space property, which is what `char::is_whitespace`
      and therefore `str::trim` use. */
  predicate IsWhitespace(c: char) {
    ('\t' <= c <= '\r') || c == ' ' || c == '\U{85}' || c == '\U{A0}' ||
    c == '\U{1680}' || ('\U{2000}' <= c <= '\U{200A}') || c == '\U{2028}' ||
    c == '\U{2029}' || c == '\U{202F}' || c == '\U{205F}' || c == '\U{3000}'
  }

  /** `str::trim_start`: the longest suffix that does not start with whitespace. */
  function TrimStart(s: string): (r: string)
    ensures |r| <= |s| && r == s[|s| - |r|..]
    ensures r == [] || !IsWhitespace(r[0])
    ensures forall i :: 0 <= i < |s| - |r| ==> IsWhitespace(s[i])
  {
    if s != [] && IsWhitespace(s[0]) then TrimStart(s[1..]) else s
  }

  /** `str::trim_end`: the longest prefix that does not end with whitespace. */
  function TrimEnd(s: string): (r: string)
    ensures |r| <= |s| && r == s[..|r|]
    ensures r == [] || !IsWhitespace(r[|r| - 1])
    ensures forall i :: |r| <= i < |s| ==> IsWhitespace(s[i])
  {
    if s != [] && IsWhitespace(s[|s| - 1]) then TrimEnd(s[..|s| - 1]) else s
  }

  /** `str::trim`. */
  function Trim(s: string): string {
    TrimEnd(TrimStart(s))
  }

  /** Trimming a text that neither starts nor ends with whitespace, followed
      by whitespace only (a line terminator, say), gives back that text. */
  lemma TrimClean(s: string, w: string)
    requires s != [] && !IsWhitespace(s[0]) && !IsWhitespace(s[|s| - 1])
    requires forall i :: 0 <= i < |w| ==> IsWhitespace(w[i])
    ensures Trim(s + w) == s
  {
    var t := TrimStart(s + w);
    assert t == s + w;
    var e := TrimEnd(t);
    assert |e| >= |s| by {
      assert !IsWhitespace(t[|s| - 1]);
    }
    assert e == t[..|s|];
  }

  // ---------------------------------------------------------------------------
  // Splitting on a character and joining

  /** The first position of `c` in `s`. */
  function IndexOfChar(s: string, c: char): (i: nat)
    requires c in s
    ensures i < |s| && s[i] == c && c !in s[..i]
  {
    if s[0] == c then 0 else 1 + IndexOfChar(s[1..], c)
  }

  /** `parts` glued together with `sep` between neighbours (`slice::join`). */
  function Join(parts: seq<string>, sep: string): string {
    if |parts| == 0 then ""
    else if |parts| == 1 then parts[0]
    else parts[0] + sep + Join(parts[1..], sep)
  }

  /** `str::split` with a one-character pattern: the pieces between the
      occurrences of `sep`, empty pieces included. */
  function Split(s: string, sep: char): (parts: seq<string>)
    ensures |parts| >= 1
    ensures forall i :: 0 <= i < |parts| ==> sep !in parts[i]
    ensures Join(parts, [sep]) == s
    decreases |s|
  {
    if sep in s then
      var i := IndexOfChar(s, sep);
      var rest := Split(s[i + 1..], sep);
      assert ([s[..i]] + rest)[1..] == rest;
      assert s == s[..i] + [sep] + s[i + 1..];
      [s[..i]] + rest
    else
      [s]
  }

  /** A piece free of `sep`, then `sep`, splits into that piece and the split of the rest. */
  lemma SplitCons(a: string, sep: char, b: string)
    requires sep !in a
    ensures Split(a + [sep] + b, sep) == [a] + Split(b, sep)
  {
    var s := a + [sep] + b;
    assert s[|a|] == sep;
    var i := IndexOfChar(s, sep);
    assert s[..i] == a;
    assert s[i + 1..] == b;
  }

  /** Splitting undoes joining, so the two are inverse on sep-free pieces. */
  lemma {:induction false} SplitJoin(parts: seq<string>, sep: char)
    requires |parts| >= 1
    requires forall i :: 0 <= i < |parts| ==> sep !in parts[i]
    ensures Split(Join(parts, [sep]), sep) == parts
    decreases |parts|
  {
    if |parts| > 1 {
      SplitJoin(parts[1..], sep);
      SplitCons(parts[0], sep, Join(parts[1..], [sep]));
    }
  }

  // ---------------------------------------------------------------------------
  // Searching for a string pattern

  /** `sep` occurs in `s` starting at position `i`. */
  predicate OccursAt(s: string, sep: string, i: int) {
    0 <= i && i + |sep| <= |s| && s[i..i + |sep|] == sep
  }

  predicate Contains(s: string, sep: string) {
    exists i :: 0 <= i <= |s| && OccursAt(s, sep, i)
  }

  /** The first occurrence of `sep` in `s` at or after `from`. */
  function FindFrom(s: string, sep: string, from: nat): (r: Option<nat>)
    requires from <= |s|
    ensures r.Some? ==> from <= r.value && OccursAt(s, sep, r.value)
    ensures r.Some? ==> forall j :: from <= j < r.value ==> !OccursAt(s, sep, j)
    ensures r.None? ==> forall j :: from <= j <= |s| ==> !OccursAt(s, sep, j)
    decreases |s| - from
  {
    if OccursAt(s, sep, from) then Some(from)
    else if from == |s| then None
    else FindFrom(s, sep, from + 1)
  }

  /** `str::split_once`: the text before the first occurrence of `sep` and the
      text after it, or None when `sep` does not occur. */
  function SplitOnce(s: string, sep: string): (r: Option<(string, string)>)
    ensures r.Some? ==> s == r.value.0 + sep + r.value.1
  {
    match FindFrom(s, sep, 0)
    case None => None
    case Some(i) =>
      assert s == s[..i] + sep + s[i + |sep|..];
      Some((s[..i], s[i + |sep|..]))
  }

  /** `split_once` splits at the first occurrence, and fails only when there is none. */
  lemma SplitOnceFirst(s: string, sep: string)
    ensures SplitOnce(s, sep).Some? ==>
      forall j :: 0 <= j < |SplitOnce(s, sep).value.0| ==> !OccursAt(s, sep, j)
    ensures SplitOnce(s, sep).None? <==> !Contains(s, sep)
  {
  }

  /** When `sep` does not start anywhere inside `a`, splitting `a + sep + b`
      once on `sep` gives `a` and `b` back. */
  lemma SplitOnceAt(a: string, sep: string, b: string)
    requires forall j :: 0 <= j < |a| ==> !OccursAt(a + sep + b, sep, j)
    ensures SplitOnce(a + sep + b, sep) == Some((a, b))
  {
    var s := a + sep + b;
    assert s[|a|..|a| + |sep|] == sep;
    assert OccursAt(s, sep, |a|);
    SplitOnceFirst(s, sep);
    var r := SplitOnce(s, sep);
    assert r.Some?;
    var (x, y) := r.value;
    assert x == s[..|a|] == a;
    assert y == s[|a| + |sep|..] == b;
  }

  /** A text without a carriage return, then CRLF: the first CRLF is that one. */
  lemma SplitOnceLine(a: string, b: string)
    requires '\r' !in a
    ensures SplitOnce(a + CRLF + b, CRLF) == Some((a, b))
  {
    forall j | 0 <= j < |a| ensures !OccursAt(a + CRLF + b, CRLF, j) {
      assert (a + CRLF + b)[j] == a[j];
    }
    SplitOnceAt(a, CRLF, b);
  }

  /** A text without a colon does not contain ": ". */
  lemma NoColonNoSeparator(key: string)
    requires ':' !in key
    ensures !Contains(key, ": ")
  {
    forall i | 0 <= i <= |key| ensures !OccursAt(key, ": ", i) {
      if i + 2 <= |key| {
        assert key[i..i + 2][0] == key[i];
      }
    }
  }

  /** A header name free of ": ", then ": ": the first ": " is that one. */
  lemma SplitOnceField(key: string, value: string)
    requires !Contains(key, ": ")
    ensures SplitOnce(key + ": " + value, ": ") == Some((key, value))
  {
    var s := key + ": " + value;
    forall j | 0 <= j < |key| ensures !OccursAt(s, ": ", j) {
      if j + 2 <= |key| {
        assert s[j..j + 2] == key[j..j + 2];
        assert !OccursAt(key, ": ", j);
      } else {
        assert s[j + 1] == ':';
      }
    }
    SplitOnceAt(key, ": ", value);
  }

  // ---------------------------------------------------------------------------
  // Decimal numbers

  predicate IsDigit(c: char) {
    '0' <= c <= '9'
  }

  predicate AllDigits(s: string) {
    forall i :: 0 <= i < |s| ==> IsDigit(s[i])
  }

  /** The value of a string of decimal digits, most significant first. */
  function DigitsValue(s: string): nat
    requires AllDigits(s)
  {
    if s == [] then 0
    else DigitsValue(s[..|s| - 1]) * 10 + ((s[|s| - 1] as int) - ('0' as int))
  }

  /** `usize::from_str` on a 64-bit target: an optional `+`, then one or more
      ASCII digits whose value fits in 64 bits; anything else is an error. */
  function ParseUsize(s: string): (r: Option<nat>)
    ensures r.Some? ==> r.value < USIZE_BOUND
  {
    var digits := if |s| >= 1 && s[0] == '+' then s[1..] else s;
    if digits == [] || !AllDigits(digits) then None
    else if DigitsValue(digits) < USIZE_BOUND then Some(DigitsValue(digits))
    else None
  }

  /** The shortest decimal rendering of `n` (`usize::to_string`). */
  function Decimal(n: nat): (s: string)
    ensures s != [] && AllDigits(s)
  {
    (if n < 10 then [] else Decimal(n / 10)) + [(('0' as int) + n % 10) as char]
  }

  lemma {:induction false} DecimalValue(n: nat)
    ensures DigitsValue(Decimal(n)) == n
  {
    var s := Decimal(n);
    assert s[..|s| - 1] == if n < 10 then [] else Decimal(n / 10);
    if n >= 10 {
      DecimalValue(n / 10);
    }
  }

  /** Parsing a rendered number, with or without a leading `+`, gives it back. */
  lemma ParseUsizeDecimal(n: nat)
    requires n < USIZE_BOUND
    ensures ParseUsize(Decimal(n)) == Some(n)
    ensures ParseUsize("+" + Decimal(n)) == Some(n)
  {
    DecimalValue(n);
    assert ("+" + Decimal(n))[1..] == Decimal(n);
  }

  // ---------------------------------------------------------------------------
  // Lossy decoding of bytes

  const REPLACEMENT_CHARACTER: char := '\U{FFFD}'

  /** One byte of `String::from_utf8_lossy`, as far as this model goes: an
      ASCII byte is its character, any other byte becomes U+FFFD. */
  function DecodeByte(b: byte): char {
    if b < 128 then b as char else REPLACEMENT_CHARACTER
  }

  function DecodeLossy(bytes: seq<byte>): (s: string)
    ensures |s| == |bytes|
    ensures forall i :: 0 <= i < |bytes| ==> s[i] == DecodeByte(bytes[i])
  {
    seq(|bytes|, i requires 0 <= i < |bytes| => DecodeByte(bytes[i]))
  }

  predicate IsAscii(s: string) {
    forall i :: 0 <= i < |s| ==> (s[i] as int) < 128
  }

  /** The bytes of an ASCII text. */
  function EncodeAscii(s: string): (bytes: seq<byte>)
    requires IsAscii(s)
    ensures |bytes| == |s|
  {
    seq(|s|, i requires 0 <= i < |s| => s[i] as int)
  }

  /** An ASCII body read from the wire decodes to the text that was sent. */
  lemma DecodeAscii(s: string)
    requires IsAscii(s)
    ensures DecodeLossy(EncodeAscii(s)) == s
  {
  }
}

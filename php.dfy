/**
 * The parts of PHP's runtime library that the collabora app leans on, written as
 * functions over Dafny strings: truthiness, path splitting (basename, dirname,
 * pathinfo), decimal conversion, str_replace, urlencode and the filter_var
 * sanitisers. A PHP string is a byte string; here it is a sequence of characters,
 * and where PHP works on the UTF-8 bytes (urlencode) the bytes are made explicit.
 */
module Php {

  datatype Option<T> = None | Some(value: T) {
    function GetOr(default: T): T {
      if Some? then value else default
    }
  }

  type Byte = x: int | 0 <= x < 256

  // ---------------------------------------------------------------------------
  // Truthiness

  /** PHP's conversion of a string to bool: only "" and "0" are false. */
  predicate Truthy(s: string) {
    s != "" && s != "0"
  }

  /** A missing value (PHP null) is false too. */
  predicate OptTruthy(o: Option<string>) {
    o.Some? && Truthy(o.value)
  }

  // ---------------------------------------------------------------------------
  // Characters

  predicate IsDigit(c: char) { '0' <= c <= '9' }
  predicate IsUpper(c: char) { 'A' <= c <= 'Z' }
  predicate IsLower(c: char) { 'a' <= c <= 'z' }
  predicate IsAlnum(c: char) { IsDigit(c) || IsUpper(c) || IsLower(c) }

  /** The whitespace class of PHP's regular expressions, restricted to ASCII. */
  predicate IsSpace(c: char) {
    c == ' ' || c == '\t' || c == '\n' || c == '\r' || c == '\U{B}' || c == '\U{C}'
  }

  /** strtolower on one character (ASCII only, as in PHP 8). */
  function LowerChar(c: char): (r: char)
    ensures !IsUpper(r)
    ensures IsUpper(c) <==> r != c
  {
    if IsUpper(c) then (c as int + 32) as char else c
  }

  function UpperChar(c: char): (r: char)
    ensures !IsLower(r)
    ensures IsLower(c) <==> r != c
  {
    if IsLower(c) then (c as int - 32) as char else c
  }

  function Lower(s: string): (r: string)
    ensures |r| == |s|
    ensures forall i :: 0 <= i < |s| ==> r[i] == LowerChar(s[i])
  {
    seq(|s|, i requires 0 <= i < |s| => LowerChar(s[i]))
  }

  /** ucfirst: the first character upper-cased. */
  function Ucfirst(s: string): (r: string)
    ensures |r| == |s|
    ensures s != [] ==> r[0] == UpperChar(s[0]) && r[1..] == s[1..]
  {
    if s == [] then [] else [UpperChar(s[0])] + s[1..]
  }

  predicate StartsWith(s: string, prefix: string) {
    |prefix| <= |s| && s[..|prefix|] == prefix
  }

  /** `needle` occurs somewhere in `s`. */
  predicate Contains(s: string, needle: string) {
    exists i :: 0 <= i <= |s| && StartsWith(s[i..], needle)
  }

  // ---------------------------------------------------------------------------
  // Filtering

  /** The characters of `s` that `keep` accepts, in their original order. */
  function Filter(s: string, keep: char -> bool): (r: string)
    ensures |r| <= |s|
    ensures forall c :: c in r ==> c in s && keep(c)
  {
    if s == [] then [] else (if keep(s[0]) then [s[0]] else []) + Filter(s[1..], keep)
  }

  lemma {:induction false} FilterAppend(a: string, b: string, keep: char -> bool)
    ensures Filter(a + b, keep) == Filter(a, keep) + Filter(b, keep)
  {
    if a != [] {
      assert (a + b)[1..] == a[1..] + b;
      FilterAppend(a[1..], b, keep);
    } else {
      assert a + b == b;
    }
  }

  /** A string all of whose characters pass is left as it is. */
  lemma {:induction false} FilterKeepsAll(s: string, keep: char -> bool)
    requires forall c :: c in s ==> keep(c)
    ensures Filter(s, keep) == s
  {
    if s != [] {
      assert forall c :: c in s[1..] ==> c in s;
      FilterKeepsAll(s[1..], keep);
    }
  }

  lemma FilterIdempotent(s: string, keep: char -> bool)
    ensures Filter(Filter(s, keep), keep) == Filter(s, keep)
  {
    FilterKeepsAll(Filter(s, keep), keep);
  }

  /** Every accepted character survives: the filter drops only what `keep` refuses. */
  lemma {:induction false} FilterCounts(s: string, keep: char -> bool, c: char)
    ensures keep(c) ==> multiset(Filter(s, keep))[c] == multiset(s)[c]
    ensures !keep(c) ==> multiset(Filter(s, keep))[c] == 0
  {
    if s != [] {
      FilterCounts(s[1..], keep, c);
      assert s == [s[0]] + s[1..];
      assert multiset(s) == multiset([s[0]]) + multiset(s[1..]);
    }
  }

  // ---------------------------------------------------------------------------
  // Paths

  function StripTrailingSlashes(p: string): (r: string)
    ensures |r| <= |p| && r == p[..|r|]
    ensures r == [] || r[|r| - 1] != '/'
    ensures forall i :: |r| <= i < |p| ==> p[i] == '/'
  {
    if |p| > 0 && p[|p| - 1] == '/' then StripTrailingSlashes(p[..|p| - 1]) else p
  }

  /** Index of the last occurrence of `c` in `s`, or -1. */
  function LastIndexOf(s: string, c: char): (i: int)
    ensures -1 <= i < |s|
    ensures 0 <= i ==> s[i] == c
    ensures forall j :: i < j < |s| ==> s[j] != c
  {
    if s == [] then -1
    else if s[|s| - 1] == c then |s| - 1
    else LastIndexOf(s[..|s| - 1], c)
  }

  /** basename: the last component, trailing slashes ignored. */
  function Basename(p: string): (r: string)
    ensures '/' !in r
  {
    var q := StripTrailingSlashes(p);
    var i := LastIndexOf(q, '/');
    q[i + 1..]
  }

  /** dirname: everything before the last component ("." when there is none). */
  function Dirname(p: string): string {
    if p == "" then ""
    else
      var q := StripTrailingSlashes(p);
      if q == "" then "/"
      else
        var i := LastIndexOf(q, '/');
        if i < 0 then "."
        else
          var d := StripTrailingSlashes(q[..i]);
          if d == "" then "/" else d
  }

  /** A path made of a directory (no trailing slash), one slash and a last component. */
  lemma SplitPath(d: string, n: string)
    requires d != "" && d[|d| - 1] != '/'
    requires n != "" && '/' !in n
    ensures Dirname(d + "/" + n) == d
    ensures Basename(d + "/" + n) == n
  {
    var p := d + "/" + n;
    assert p[|p| - 1] == n[|n| - 1];
    assert StripTrailingSlashes(p) == p;
    assert p[|d|] == '/';
    var i := LastIndexOf(p, '/');
    assert i == |d| by {
      assert forall j :: |d| < j < |p| ==> p[j] == n[j - |d| - 1];
    }
    assert p[..i] == d;
    assert p[i + 1..] == n;
  }

  /** basename($path, $suffix): the suffix is cut off when the name ends with it and is longer. */
  function BasenameWithout(p: string, suffix: string): (r: string)
    ensures |r| <= |Basename(p)|
    ensures r == Basename(p) || (suffix != "" && r != "" && r + suffix == Basename(p))
  {
    var b := Basename(p);
    if suffix != "" && |suffix| < |b| && b[|b| - |suffix|..] == suffix then b[..|b| - |suffix|] else b
  }

  /** pathinfo(..., PATHINFO_EXTENSION) is present only when the base name holds a period. */
  predicate HasExtension(p: string) {
    LastIndexOf(Basename(p), '.') >= 0
  }

  function PathExtension(p: string): string {
    var b := Basename(p);
    var i := LastIndexOf(b, '.');
    if i < 0 then "" else b[i + 1..]
  }

  function PathFilename(p: string): string {
    var b := Basename(p);
    var i := LastIndexOf(b, '.');
    if i < 0 then b else b[..i]
  }

  /** The base name is the file name part, a period and the extension, or the file name alone. */
  lemma PathInfoSplit(p: string)
    ensures HasExtension(p) ==> Basename(p) == PathFilename(p) + "." + PathExtension(p)
    ensures !HasExtension(p) ==> Basename(p) == PathFilename(p) && PathExtension(p) == ""
  {
    var b := Basename(p);
    var i := LastIndexOf(b, '.');
    if i >= 0 {
      assert b == b[..i] + [b[i]] + b[i + 1..];
    }
  }

  // ---------------------------------------------------------------------------
  // Decimal numbers

  function DigitChar(d: nat): (c: char)
    requires d < 10
    ensures IsDigit(c)
  {
    ('0' as int + d) as char
  }

  function DigitValue(c: char): (d: nat)
    requires IsDigit(c)
    ensures d < 10 && DigitChar(d) == c
  {
    c as int - '0' as int
  }

  /** The decimal representation of a natural number, as PHP prints it. */
  function NatToString(n: nat): (r: string)
    ensures |r| >= 1
    ensures forall c :: c in r ==> IsDigit(c)
    ensures n < 10 <==> |r| == 1
  {
    if n < 10 then [DigitChar(n)] else NatToString(n / 10) + [DigitChar(n % 10)]
  }

  function IntToString(i: int): string {
    if i < 0 then "-" + NatToString(-i) else NatToString(i)
  }

  /** The value of a string of decimal digits. */
  function DigitsValue(s: string): nat
    requires forall c :: c in s ==> IsDigit(c)
  {
    if s == [] then 0 else DigitsValue(s[..|s| - 1]) * 10 + DigitValue(s[|s| - 1])
  }

  lemma {:induction false} DigitsOfNat(n: nat)
    ensures DigitsValue(NatToString(n)) == n
  {
    var s := NatToString(n);
    if n >= 10 {
      DigitsOfNat(n / 10);
      assert s[..|s| - 1] == NatToString(n / 10);
    }
  }

  /** Distinct numbers print differently. */
  lemma NatToStringInjective(n: nat, m: nat)
    requires NatToString(n) == NatToString(m)
    ensures n == m
  {
    DigitsOfNat(n);
    DigitsOfNat(m);
  }

  // ---------------------------------------------------------------------------
  // str_replace

  /**
   * str_replace($needle, $replacement, $s): one left-to-right pass replacing every
   * non-overlapping occurrence. An empty needle leaves the subject unchanged.
   */
  function StrReplace(s: string, needle: string, replacement: string): string
    decreases |s|
  {
    if needle == [] || s == [] then s
    else if StartsWith(s, needle) then replacement + StrReplace(s[|needle|..], needle, replacement)
    else [s[0]] + StrReplace(s[1..], needle, replacement)
  }

  /** An occurrence in the tail is an occurrence in the whole string. */
  lemma ContainsTail(s: string, needle: string)
    requires s != [] && Contains(s[1..], needle)
    ensures Contains(s, needle)
  {
    var i :| 0 <= i <= |s[1..]| && StartsWith(s[1..][i..], needle);
    assert s[1..][i..] == s[i + 1..];
  }

  /** A subject in which the needle does not occur is returned unchanged. */
  lemma {:induction false} StrReplaceAbsent(s: string, needle: string, replacement: string)
    requires !Contains(s, needle)
    ensures StrReplace(s, needle, replacement) == s
    decreases |s|
  {
    if needle != [] && s != [] {
      assert s[0..] == s;
      assert !StartsWith(s, needle);
      if Contains(s[1..], needle) {
        ContainsTail(s, needle);
      }
      StrReplaceAbsent(s[1..], needle, replacement);
    }
  }

  /** Removing a prefix that does not occur again leaves exactly the rest. */
  lemma StrRemovePrefix(needle: string, rest: string)
    requires needle != []
    requires !Contains(rest, needle)
    ensures StrReplace(needle + rest, needle, "") == rest
  {
    var s := needle + rest;
    assert StartsWith(s, needle);
    assert s[|needle|..] == rest;
    StrReplaceAbsent(rest, needle, "");
  }

  // ---------------------------------------------------------------------------
  // explode and implode

  /** The first index of `c` in `s`, -1 when absent. */
  function IndexOf(s: string, c: char): (i: int)
    ensures -1 <= i < |s|
    ensures 0 <= i ==> s[i] == c
    ensures forall j :: 0 <= j < |s| && (i < 0 || j < i) ==> s[j] != c
  {
    if s == [] then -1
    else if s[0] == c then 0
    else var j := IndexOf(s[1..], c); if j < 0 then -1 else j + 1
  }

  /** explode($sep, $s) for a one-character separator: the pieces between separators. */
  function Explode(s: string, sep: char): (parts: seq<string>)
    ensures |parts| >= 1
    ensures forall k :: 0 <= k < |parts| ==> sep !in parts[k]
    decreases |s|
  {
    var i := IndexOf(s, sep);
    if i < 0 then [s] else [s[..i]] + Explode(s[i + 1..], sep)
  }

  /** implode($sep, $parts). */
  function Implode(parts: seq<string>, sep: char): string {
    if parts == [] then ""
    else if |parts| == 1 then parts[0]
    else parts[0] + [sep] + Implode(parts[1..], sep)
  }

  /** Joining a piece in front of at least one more adds the piece and a separator. */
  lemma ImplodeCons(first: string, rest: seq<string>, sep: char)
    requires rest != []
    ensures Implode([first] + rest, sep) == first + [sep] + Implode(rest, sep)
  {
    assert ([first] + rest)[1..] == rest;
  }

  /** A string with a separator splits into the text before it and the pieces after it. */
  lemma ExplodeStep(s: string, sep: char)
    requires IndexOf(s, sep) >= 0
    ensures var i := IndexOf(s, sep);
      Explode(s, sep) == [s[..i]] + Explode(s[i + 1..], sep)
  {
  }

  /** A string is the text before position i, the character there, and the text after. */
  lemma SplitAround(s: string, i: int)
    requires 0 <= i < |s|
    ensures s == s[..i] + [s[i]] + s[i + 1..]
  {
  }

  /** The first separator in head + sep + tail, when head has none, is the one after head. */
  lemma SplitAtFirst(head: string, sep: char, tail: string)
    requires sep !in head
    ensures var s := head + [sep] + tail;
      IndexOf(s, sep) == |head| && s[..|head|] == head && s[|head| + 1..] == tail
  {
    var s := head + [sep] + tail;
    var i := IndexOf(s, sep);
    assert s[|head|] == sep;
    assert forall j :: 0 <= j < |head| ==> s[j] == head[j];
    assert s[..|head|] == head;
    assert s[|head| + 1..] == tail;
  }

  /** Joining the pieces gives the string back. */
  lemma {:induction false} ExplodeImplode(s: string, sep: char)
    ensures Implode(Explode(s, sep), sep) == s
    decreases |s|
  {
    var i := IndexOf(s, sep);
    if i >= 0 {
      var tail := s[i + 1..];
      ExplodeStep(s, sep);
      SplitAround(s, i);
      ExplodeImplode(tail, sep);
      ImplodeCons(s[..i], Explode(tail, sep), sep);
    }
  }

  /** Splitting a join of separator-free pieces gives the pieces back. */
  lemma {:induction false} ImplodeExplode(parts: seq<string>, sep: char)
    requires |parts| >= 1
    requires forall k :: 0 <= k < |parts| ==> sep !in parts[k]
    ensures Explode(Implode(parts, sep), sep) == parts
  {
    if |parts| > 1 {
      var head, tail := parts[0], Implode(parts[1..], sep);
      SplitAtFirst(head, sep, tail);
      ImplodeExplode(parts[1..], sep);
    }
  }

  // ---------------------------------------------------------------------------
  // UTF-8 and urlencode

  /** The UTF-8 encoding of one character. */
  function Utf8(c: char): (r: seq<Byte>)
    ensures 1 <= |r| <= 4
    ensures (c as int < 0x80) <==> |r| == 1
  {
    var n := c as int;
    if n < 0x80 then [n]
    else if n < 0x800 then [0xC0 + n / 64, 0x80 + n % 64]
    else if n < 0x10000 then [0xE0 + n / 4096, 0x80 + (n / 64) % 64, 0x80 + n % 64]
    else [0xF0 + n / 262144, 0x80 + (n / 4096) % 64, 0x80 + (n / 64) % 64, 0x80 + n % 64]
  }

  function Utf8Bytes(s: string): seq<Byte> {
    if s == [] then [] else Utf8(s[0]) + Utf8Bytes(s[1..])
  }

  lemma {:induction false} Utf8BytesAppend(a: string, b: string)
    ensures Utf8Bytes(a + b) == Utf8Bytes(a) + Utf8Bytes(b)
  {
    if a != [] {
      assert (a + b)[1..] == a[1..] + b;
      Utf8BytesAppend(a[1..], b);
    } else {
      assert a + b == b;
    }
  }

  function HexDigit(d: nat): (c: char)
    requires d < 16
  {
    "0123456789ABCDEF"[d]
  }

  predicate IsHex(c: char) {
    IsDigit(c) || 'A' <= c <= 'F' || 'a' <= c <= 'f'
  }

  function HexValue(c: char): (d: nat)
    requires IsHex(c)
    ensures d < 16
  {
    if IsDigit(c) then c as int - '0' as int
    else if 'A' <= c <= 'F' then c as int - 'A' as int + 10
    else c as int - 'a' as int + 10
  }

  lemma HexRoundTrip(d: nat)
    requires d < 16
    ensures IsHex(HexDigit(d)) && HexValue(HexDigit(d)) == d
  {
  }

  /** Bytes that urlencode passes through unchanged: ASCII letters, digits and "-_.". */
  predicate Unreserved(b: Byte) {
    IsAlnum(b as char) || b == '-' as int || b == '_' as int || b == '.' as int
  }

  function UrlEncodeByte(b: Byte): (r: string)
    ensures |r| == 1 || |r| == 3
  {
    if Unreserved(b) then [b as char]
    else if b == 32 then "+"
    else ['%', HexDigit(b / 16), HexDigit(b % 16)]
  }

  function UrlEncodeBytes(bs: seq<Byte>): string {
    if bs == [] then "" else UrlEncodeByte(bs[0]) + UrlEncodeBytes(bs[1..])
  }

  /** urlencode (application/x-www-form-urlencoded) of a UTF-8 string. */
  function UrlEncode(s: string): string {
    UrlEncodeBytes(Utf8Bytes(s))
  }

  /** urldecode, back to bytes: "+" is a space, "%XY" a byte, anything else itself. */
  function UrlDecodeBytes(e: string): seq<Byte>
    decreases |e|
  {
    if e == [] then []
    else if e[0] == '+' then [32] + UrlDecodeBytes(e[1..])
    else if e[0] == '%' && |e| >= 3 && IsHex(e[1]) && IsHex(e[2]) then
      [HexValue(e[1]) * 16 + HexValue(e[2])] + UrlDecodeBytes(e[3..])
    else if (e[0] as int) < 256 then [e[0] as int] + UrlDecodeBytes(e[1..])
    else UrlDecodeBytes(e[1..])
  }

  lemma UrlDecodeByte(b: Byte, rest: string)
    ensures UrlDecodeBytes(UrlEncodeByte(b) + rest) == [b] + UrlDecodeBytes(rest)
  {
    var e := UrlEncodeByte(b) + rest;
    if Unreserved(b) {
      assert e[1..] == rest;
    } else if b == 32 {
      assert e[1..] == rest;
    } else {
      HexRoundTrip(b / 16);
      HexRoundTrip(b % 16);
      assert e[3..] == rest;
    }
  }

  /** Decoding undoes encoding, byte for byte. */
  lemma {:induction false} UrlRoundTripBytes(bs: seq<Byte>)
    ensures UrlDecodeBytes(UrlEncodeBytes(bs)) == bs
  {
    if bs != [] {
      UrlDecodeByte(bs[0], UrlEncodeBytes(bs[1..]));
      UrlRoundTripBytes(bs[1..]);
    }
  }

  lemma UrlRoundTrip(s: string)
    ensures UrlDecodeBytes(UrlEncode(s)) == Utf8Bytes(s)
  {
    UrlRoundTripBytes(Utf8Bytes(s));
  }

  /** The characters urlencode can produce. */
  predicate UrlSafe(c: char) {
    IsAlnum(c) || c == '-' || c == '_' || c == '.' || c == '%' || c == '+'
  }

  lemma {:induction false} UrlEncodeBytesSafe(bs: seq<Byte>)
    ensures forall c :: c in UrlEncodeBytes(bs) ==> UrlSafe(c)
  {
    if bs != [] {
      UrlEncodeBytesSafe(bs[1..]);
      var b := bs[0];
      assert forall c :: c in UrlEncodeByte(b) ==> UrlSafe(c) by {
        if !Unreserved(b) && b != 32 {
          assert HexDigit(b / 16) in "0123456789ABCDEF";
          assert HexDigit(b % 16) in "0123456789ABCDEF";
        }
      }
    }
  }

  lemma {:induction false} UrlEncodeBytesAppend(a: seq<Byte>, b: seq<Byte>)
    ensures UrlEncodeBytes(a + b) == UrlEncodeBytes(a) + UrlEncodeBytes(b)
  {
    if a != [] {
      assert (a + b)[1..] == a[1..] + b;
      UrlEncodeBytesAppend(a[1..], b);
    } else {
      assert a + b == b;
    }
  }

  /** "+" is the single byte 43, which urlencode writes as "%2B". */
  lemma PlusEncoding()
    ensures Utf8Bytes("+") == [43] && UrlEncodeBytes([43]) == "%2B"
  {
    assert "+"[1..] == [];
    assert [43 as Byte][1..] == [];
  }

  /** urlencode works piecewise, so a literal "+" always comes out as "%2B". */
  lemma UrlEncodePlus(a: string, b: string)
    ensures UrlEncode(a + "+" + b) == UrlEncode(a) + "%2B" + UrlEncode(b)
  {
    var bytesA, bytesB := Utf8Bytes(a), Utf8Bytes(b);
    Utf8BytesAppend(a + "+", b);
    Utf8BytesAppend(a, "+");
    PlusEncoding();
    assert Utf8Bytes(a + "+" + b) == bytesA + [43] + bytesB;
    UrlEncodeBytesAppend(bytesA + [43], bytesB);
    UrlEncodeBytesAppend(bytesA, [43]);
  }

  // ---------------------------------------------------------------------------
  // filter_var sanitisers

  /** Characters FILTER_SANITIZE_NUMBER_INT keeps: digits, plus and minus. */
  predicate NumberIntChar(c: char) {
    IsDigit(c) || c == '+' || c == '-'
  }

  /** filter_var($s, FILTER_SANITIZE_NUMBER_INT). */
  function SanitizeNumberInt(s: string): string {
    Filter(s, NumberIntChar)
  }

  /** Characters FILTER_SANITIZE_SPECIAL_CHARS turns into numeric entities. */
  predicate HtmlSpecial(c: char) {
    c == '\'' || c == '"' || c == '<' || c == '>' || c == '&' || (c as int) < 32
  }

  function EncodeSpecialChar(c: char): string {
    if HtmlSpecial(c) then "&#" + NatToString(c as int) + ";" else [c]
  }

  /** filter_var($s, FILTER_SANITIZE_SPECIAL_CHARS): '"<>& and control characters as "&#N;". */
  function SanitizeSpecialChars(s: string): string {
    if s == [] then "" else EncodeSpecialChar(s[0]) + SanitizeSpecialChars(s[1..])
  }

  /** FILTER_FLAG_STRIP_LOW and FILTER_FLAG_STRIP_HIGH: drop codes below 32 and from 128 up. */
  predicate PrintableAscii(c: char) {
    32 <= c as int < 128
  }

  /** Length of the run of digits at the start of `s`. */
  function DigitRun(s: string): (n: nat)
    ensures n <= |s|
    ensures forall i :: 0 <= i < n ==> IsDigit(s[i])
    ensures n < |s| ==> !IsDigit(s[n])
  {
    if s != [] && IsDigit(s[0]) then 1 + DigitRun(s[1..]) else 0
  }

  predicate ValidCharCode(n: int) {
    0 <= n < 0xD800 || 0xE000 <= n < 0x11_0000
  }

  /** Decoding of numeric character references "&#N;", the inverse of the sanitiser. */
  function DecodeEntities(s: string): string
    decreases |s|
  {
    if s == [] then ""
    else if StartsWith(s, "&#") then
      var k := DigitRun(s[2..]);
      if 0 < k && 2 + k < |s| && s[2 + k] == ';' && ValidCharCode(DigitsValue(s[2..2 + k])) then
        [DigitsValue(s[2..2 + k]) as char] + DecodeEntities(s[3 + k..])
      else [s[0]] + DecodeEntities(s[1..])
    else [s[0]] + DecodeEntities(s[1..])
  }

  lemma {:induction false} DigitRunOfDigits(a: string, b: string)
    requires forall c :: c in a ==> IsDigit(c)
    requires b == [] || !IsDigit(b[0])
    ensures DigitRun(a + b) == |a|
  {
    if a != [] {
      assert (a + b)[1..] == a[1..] + b;
      DigitRunOfDigits(a[1..], b);
    } else {
      assert a + b == b;
    }
  }

  /** The pieces DecodeEntities reads from "&#" + digits + ";" + rest. */
  lemma EntityParts(digits: string, rest: string)
    requires digits != [] && forall c :: c in digits ==> IsDigit(c)
    ensures var e := "&#" + digits + ";" + rest;
      StartsWith(e, "&#") && DigitRun(e[2..]) == |digits| && 2 + |digits| < |e|
      && e[2..2 + |digits|] == digits && e[2 + |digits|] == ';' && e[3 + |digits|..] == rest
  {
    var e := "&#" + digits + ";" + rest;
    assert e[..2] == "&#";
    assert e[2..] == digits + (";" + rest);
    DigitRunOfDigits(digits, ";" + rest);
  }

  /** A well-formed reference "&#digits;" decodes to the character it numbers. */
  lemma DecodeEntity(digits: string, rest: string)
    requires digits != [] && forall c :: c in digits ==> IsDigit(c)
    requires ValidCharCode(DigitsValue(digits))
    ensures DecodeEntities("&#" + digits + ";" + rest) == [DigitsValue(digits) as char] + DecodeEntities(rest)
  {
    EntityParts(digits, rest);
  }

  /** A character not starting a reference decodes to itself. */
  lemma DecodePlain(c: char, rest: string)
    requires c != '&'
    ensures DecodeEntities([c] + rest) == [c] + DecodeEntities(rest)
  {
    var e := [c] + rest;
    assert e[1..] == rest;
    assert |e| >= 2 ==> e[..2][0] == c;
  }

  lemma DecodeOneSpecial(c: char, rest: string)
    ensures DecodeEntities(EncodeSpecialChar(c) + rest) == [c] + DecodeEntities(rest)
  {
    if HtmlSpecial(c) {
      var digits := NatToString(c as int);
      DigitsOfNat(c as int);
      DecodeEntity(digits, rest);
    } else {
      DecodePlain(c, rest);
    }
  }

  /** Decoding the entities gives back the raw string. */
  lemma {:induction false} SpecialCharsRoundTrip(s: string)
    ensures DecodeEntities(SanitizeSpecialChars(s)) == s
  {
    if s != [] {
      DecodeOneSpecial(s[0], SanitizeSpecialChars(s[1..]));
      SpecialCharsRoundTrip(s[1..]);
    }
  }

  lemma {:induction false} SpecialCharsClean(s: string)
    ensures forall c :: c in SanitizeSpecialChars(s) ==> !HtmlSpecial(c) || c == '&'
  {
    if s != [] {
      SpecialCharsClean(s[1..]);
      var c := s[0];
      if HtmlSpecial(c) {
        assert forall d :: d in NatToString(c as int) ==> IsDigit(d);
      }
    }
  }

  // ---------------------------------------------------------------------------
  // Integer conversion

  const IntMax: int := 0x7FFF_FFFF_FFFF_FFFF
  const IntMin: int := -0x8000_0000_0000_0000

  /** The 64-bit integer range of PHP's int, saturating as PHP's string conversion does. */
  function Clamp(n: int): (r: int)
    ensures IntMin <= r <= IntMax
    ensures IntMin <= n <= IntMax ==> r == n
  {
    if n > IntMax then IntMax else if n < IntMin then IntMin else n
  }

  /**
   * (int)$s as it acts on the ids and share fields this model feeds it: optional
   * leading whitespace, an optional sign, then the leading digits (0 if none).
   * PHP 8 also reads decimal and exponent forms ("1e3" is 1000); those are not modelled.
   */
  function IntCast(s: string): (r: int)
    ensures IntMin <= r <= IntMax
    decreases |s|
  {
    if s != [] && IsSpace(s[0]) then IntCast(s[1..])
    else if s != [] && (s[0] == '-' || s[0] == '+') then
      var k := DigitRun(s[1..]);
      var v: int := DigitsValue(s[1..1 + k]);
      Clamp(if s[0] == '-' then -v else v)
    else
      var k := DigitRun(s);
      Clamp(DigitsValue(s[..k]))
  }

  lemma IntCastOfNat(n: nat)
    requires n <= IntMax
    ensures IntCast(NatToString(n)) == n
  {
    var s := NatToString(n);
    DigitRunOfDigits(s, "");
    assert s + "" == s;
    assert s[..|s|] == s;
    DigitsOfNat(n);
  }
}

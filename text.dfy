/**
 * The string operations the service, the store queries and the browser code rely on:
 * trimming, blankness, ASCII lower-casing, substring search, digit checks, ordering.
 */
module Text {

  /** Java's String.trim() strips every leading and trailing char whose code is at most U+0020. */
  predicate IsJavaSpace(c: char) {
    c <= ' '
  }

  /** The characters JavaScript's String.prototype.trim() strips: WhiteSpace and LineTerminator. */
  predicate IsJsSpace(c: char) {
    c == '\t' || c == '\n' || c == '\U{000B}' || c == '\U{000C}' || c == '\r' || c == ' '
    || c == '\U{00A0}' || c == '\U{1680}' || ('\U{2000}' <= c <= '\U{200A}')
    || c == '\U{2028}' || c == '\U{2029}' || c == '\U{202F}' || c == '\U{205F}'
    || c == '\U{3000}' || c == '\U{FEFF}'
  }

  /** Drops the leading characters that `ws` accepts; what is left is a suffix of `s`. */
  function TrimStart(s: string, ws: char -> bool): (r: string)
    ensures |r| <= |s| && r == s[|s| - |r|..]
    ensures r == [] || !ws(r[0])
    ensures forall i :: 0 <= i < |s| - |r| ==> ws(s[i])
  {
    if s != [] && ws(s[0]) then TrimStart(s[1..], ws) else s
  }

  /** Drops the trailing characters that `ws` accepts; what is left is a prefix of `s`. */
  function TrimEnd(s: string, ws: char -> bool): (r: string)
    ensures |r| <= |s| && r == s[..|r|]
    ensures r == [] || !ws(r[|r| - 1])
    ensures forall i :: |r| <= i < |s| ==> ws(s[i])
  {
    if s != [] && ws(s[|s| - 1]) then TrimEnd(s[..|s| - 1], ws) else s
  }

  /** Java's String.trim(). */
  function Trim(s: string): string {
    TrimEnd(TrimStart(s, IsJavaSpace), IsJavaSpace)
  }

  /** JavaScript's String.prototype.trim(). */
  function JsTrim(s: string): string {
    TrimEnd(TrimStart(s, IsJsSpace), IsJsSpace)
  }

  /** `s.trim().isEmpty()` in Java, which is also what Bean Validation's @NotBlank rejects. */
  predicate IsBlank(s: string) {
    Trim(s) == []
  }

  /** A string is blank exactly when every one of its characters is trimmed away. */
  lemma BlankIffAllSpace(s: string)
    ensures IsBlank(s) <==> forall i :: 0 <= i < |s| ==> IsJavaSpace(s[i])
  {
    var t := TrimStart(s, IsJavaSpace);
    if t != [] {
      assert !IsJavaSpace(t[0]) && t[0] == s[|s| - |t|];
    }
  }

  /** A string is not blank exactly when some character of it survives trimming. */
  lemma NotBlankIff(s: string)
    ensures !IsBlank(s) <==> exists i :: 0 <= i < |s| && !IsJavaSpace(s[i])
  {
    BlankIffAllSpace(s);
  }

  /** A string with one character that is not a space is not blank. */
  lemma NotBlankAt(s: string, i: int)
    requires 0 <= i < |s| && !IsJavaSpace(s[i])
    ensures !IsBlank(s)
  {
    BlankIffAllSpace(s);
  }

  /** ASCII lower-casing (Java's toLowerCase, SQL LOWER and JavaScript's toLowerCase on ASCII). */
  function LowerChar(c: char): char {
    if 'A' <= c <= 'Z' then (c as int + 32) as char else c
  }

  function Lower(s: string): (r: string)
    ensures |r| == |s|
    ensures forall i :: 0 <= i < |s| ==> r[i] == LowerChar(s[i])
  {
    seq(|s|, i requires 0 <= i < |s| => LowerChar(s[i]))
  }

  /** Java's String.equalsIgnoreCase, on ASCII letters. */
  predicate EqualsIgnoreCase(a: string, b: string) {
    Lower(a) == Lower(b)
  }

  /** `t` occurs in `s` as a contiguous substring (Java contains, JavaScript includes, SQL LIKE '%t%'). */
  predicate Contains(s: string, t: string)
    decreases |s|
  {
    t <= s || (s != [] && Contains(s[1..], t))
  }

  /** Contains agrees with the positional definition of a substring. */
  lemma {:induction false} ContainsAt(s: string, t: string)
    ensures Contains(s, t) <==> exists i :: 0 <= i <= |s| - |t| && t <= s[i..]
    decreases |s|
  {
    if t <= s {
      assert t <= s[0..];
    } else if s != [] {
      ContainsAt(s[1..], t);
      if Contains(s[1..], t) {
        var i :| 0 <= i <= |s[1..]| - |t| && t <= s[1..][i..];
        assert s[1..][i..] == s[i + 1..];
      }
      if i :| 0 <= i <= |s| - |t| && t <= s[i..] {
        assert i != 0;
        assert s[1..][i - 1..] == s[i..];
      }
    }
  }

  /** Case-insensitive substring test, as `LOWER(x) LIKE LOWER(CONCAT('%', t, '%'))`. */
  predicate ContainsIgnoreCase(s: string, t: string) {
    Contains(Lower(s), Lower(t))
  }

  /** The empty search term occurs in every string. */
  lemma ContainsEmpty(s: string)
    ensures Contains(s, "") && ContainsIgnoreCase(s, "")
  {
  }

  /** The regular expression ^[0-9]{10}$ (Java @Pattern and the browser check agree on it). */
  predicate IsTenDigits(s: string) {
    |s| == 10 && forall i :: 0 <= i < |s| ==> '0' <= s[i] <= '9'
  }

  /** Decimal rendering of an integer, as Java's string concatenation of a Long. */
  function IntToString(n: int): string
    decreases if n < 0 then 1 - n else n
  {
    if n < 0 then "-" + IntToString(-n)
    else if n < 10 then [(48 + n) as char]
    else IntToString(n / 10) + [(48 + n % 10) as char]
  }

  /** Strict lexicographic order by character code; ORDER BY and localeCompare are modelled by it. */
  predicate LexLess(a: string, b: string)
    decreases |a|
  {
    b != [] && (a == [] || a[0] < b[0] || (a[0] == b[0] && LexLess(a[1..], b[1..])))
  }

  lemma {:induction false} LexLessIrreflexive(a: string)
    ensures !LexLess(a, a)
    decreases |a|
  {
    if a != [] {
      LexLessIrreflexive(a[1..]);
    }
  }

  lemma {:induction false} LexLessTransitive(a: string, b: string, c: string)
    requires LexLess(a, b) && LexLess(b, c)
    ensures LexLess(a, c)
    decreases |a|
  {
    if a != [] && a[0] == b[0] && b[0] == c[0] {
      LexLessTransitive(a[1..], b[1..], c[1..]);
    }
  }

  /** Any two different strings are ordered one way, and never both ways. */
  lemma {:induction false} LexLessTotal(a: string, b: string)
    ensures a != b <==> (LexLess(a, b) || LexLess(b, a))
    ensures !(LexLess(a, b) && LexLess(b, a))
    decreases |a|
  {
    if a != [] && b != [] && a[0] == b[0] {
      LexLessTotal(a[1..], b[1..]);
      assert a == [a[0]] + a[1..] && b == [b[0]] + b[1..];
    } else if a == b {
      LexLessIrreflexive(a);
    }
  }

  /** A three-way comparison (negative, zero, positive) by LexLess, the shape of localeCompare. */
  function LexCompare(a: string, b: string): (r: int)
    ensures r == 0 <==> a == b
    ensures r < 0 <==> LexLess(a, b)
    ensures r > 0 <==> LexLess(b, a)
  {
    LexLessTotal(a, b);
    if a == b then 0 else if LexLess(a, b) then -1 else 1
  }
}

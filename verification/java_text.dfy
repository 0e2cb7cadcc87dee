/** The few pieces of java.lang text behaviour the SCIM core relies on:
    string concatenation of null and boolean values, `String.trim`,
    ASCII case folding, substring containment, the `(int)` narrowing cast
    and `String.hashCode`. */
module JavaText {
  import opened Wrappers

  /** `"" + s` in Java: a null reference is rendered as the four letters "null". */
  function Render(s: Option<string>): string {
    match s
    case None => "null"
    case Some(v) => v
  }

  /** `"" + b` for a boxed Boolean, which may be null. */
  function RenderBool(b: Option<bool>): string {
    match b
    case None => "null"
    case Some(v) => if v then "true" else "false"
  }

  function DigitChar(d: nat): (c: char)
    requires d < 10
    ensures '0' <= c <= '9'
  {
    "0123456789"[d]
  }

  /** Decimal digits of a non-negative number, most significant first. */
  function NatText(n: nat): (r: string)
    ensures |r| >= 1
    ensures forall k :: 0 <= k < |r| ==> '0' <= r[k] <= '9'
    decreases n
  {
    if n < 10 then [DigitChar(n)] else NatText(n / 10) + [DigitChar(n % 10)]
  }

  /** `Long.toString`: a leading minus sign for negative values, then the digits. */
  function LongText(i: int): (r: string)
    ensures |r| >= 1
    ensures (r[0] == '-') <==> i < 0
  {
    if i < 0 then "-" + NatText(-i) else NatText(i)
  }

  // ---------------------------------------------------------------------
  // Character classes of java.util.regex (without UNICODE_CHARACTER_CLASS)

  /** `\w` = [a-zA-Z_0-9]. */
  predicate IsWordChar(c: char) {
    ('a' <= c <= 'z') || ('A' <= c <= 'Z') || ('0' <= c <= '9') || c == '_'
  }

  /** `\s` = [ \t\n\x0B\f\r]. */
  predicate IsRegexSpace(c: char) {
    c == ' ' || c == '\t' || c == '\n' || c == '\U{B}' || c == '\U{C}' || c == '\r'
  }

  predicate IsQuote(c: char) {
    c == '"' || c == '\''
  }

  // ---------------------------------------------------------------------
  // String.trim: strips every leading and trailing char <= U+0020

  function TrimStart(s: string): (r: string)
    ensures |r| <= |s| && r == s[|s| - |r|..]
    ensures forall k :: 0 <= k < |s| - |r| ==> s[k] <= ' '
    ensures |r| > 0 ==> r[0] > ' '
  {
    if |s| > 0 && s[0] <= ' ' then TrimStart(s[1..]) else s
  }

  function TrimEnd(s: string): (r: string)
    ensures |r| <= |s| && r == s[..|r|]
    ensures forall k :: |r| <= k < |s| ==> s[k] <= ' '
    ensures |r| > 0 ==> r[|r| - 1] > ' '
  {
    if |s| > 0 && s[|s| - 1] <= ' ' then TrimEnd(s[..|s| - 1]) else s
  }

  /** r is s[i..j] with only chars <= U+0020 cut away on either side. */
  predicate TrimmedSlice(s: string, r: string, i: int, j: int) {
    && 0 <= i <= j <= |s| && r == s[i..j]
    && (forall k :: 0 <= k < i ==> s[k] <= ' ')
    && (forall k :: j <= k < |s| ==> s[k] <= ' ')
  }

  /** `s.trim()`: the longest middle part of `s` that neither starts nor ends
      with a char <= U+0020. */
  function Trim(s: string): (r: string)
    ensures exists i, j :: TrimmedSlice(s, r, i, j)
    ensures |r| > 0 ==> r[0] > ' ' && r[|r| - 1] > ' '
  {
    var t := TrimStart(s);
    var r := TrimEnd(t);
    TrimSlice(s, t, r);
    r
  }

  lemma TrimSlice(s: string, t: string, r: string)
    requires |t| <= |s| && t == s[|s| - |t|..] && forall k :: 0 <= k < |s| - |t| ==> s[k] <= ' '
    requires |r| <= |t| && r == t[..|r|] && forall k :: |r| <= k < |t| ==> t[k] <= ' '
    ensures TrimmedSlice(s, r, |s| - |t|, |s| - |t| + |r|)
    ensures |r| > 0 ==> r[0] == t[0]
  {
    var i := |s| - |t|;
    var j := i + |r|;
    assert r == s[i..j] by {
      forall m | 0 <= m < |r| ensures r[m] == s[i + m] {
        assert r[m] == t[m] && t[m] == s[i + m];
      }
    }
    assert forall k :: j <= k < |s| ==> s[k] <= ' ' by {
      forall k | j <= k < |s| ensures s[k] <= ' ' {
        assert |r| <= k - i < |t| && s[k] == t[k - i];
      }
    }
  }

  // ---------------------------------------------------------------------
  // Case folding and containment

  function LowerChar(c: char): char {
    if 'A' <= c <= 'Z' then (c as int - 'A' as int + 'a' as int) as char else c
  }

  /** Lower-cases the ASCII letters of `s` and leaves every other char alone. */
  function LowerAscii(s: string): (r: string)
    ensures |r| == |s|
    ensures forall k :: 0 <= k < |s| ==> r[k] == LowerChar(s[k])
  {
    seq(|s|, k requires 0 <= k < |s| => LowerChar(s[k]))
  }

  /** `s.contains(p)`, written as a left-to-right scan. */
  function Contains(s: string, p: string): (r: bool)
    ensures r <==> exists i :: 0 <= i <= |s| && p <= s[i..]
    decreases |s|
  {
    if p <= s then
      assert p <= s[0..];
      true
    else if |s| == 0 then
      false
    else
      var r := Contains(s[1..], p);
      assert forall i :: 1 <= i <= |s| ==> s[1..][i - 1..] == s[i..];
      r
  }

  /** Case-insensitive containment on a nullable column: a null column
      never matches (SQL `LIKE` on NULL is not true). */
  function ContainsIgnoreCase(column: Option<string>, needle: string): bool {
    column.Some? && Contains(LowerAscii(column.value), LowerAscii(needle))
  }

  /** `a.equalsIgnoreCase(b)` for the ASCII letters. */
  predicate EqualsIgnoreCase(a: string, b: string) {
    LowerAscii(a) == LowerAscii(b)
  }

  // ---------------------------------------------------------------------
  // 32-bit integers

  const TWO_32: int := 0x1_0000_0000
  const INT_MIN: int := -0x8000_0000
  const INT_MAX: int := 0x7FFF_FFFF

  /** `(int) x`: keeps the low 32 bits as a two's-complement value. */
  function ToInt32(x: int): (r: int)
    ensures INT_MIN <= r <= INT_MAX
    ensures (x - r) % TWO_32 == 0
    ensures INT_MIN <= x <= INT_MAX ==> r == x
  {
    (x - INT_MIN) % TWO_32 + INT_MIN
  }

  /** `String.hashCode`: h = 31 * h + c over the chars, in int arithmetic.
      Each char counts as one code unit. */
  function StringHash(s: string): (h: int)
    ensures INT_MIN <= h <= INT_MAX
  {
    if |s| == 0 then 0 else ToInt32(31 * StringHash(s[..|s| - 1]) + s[|s| - 1] as int)
  }

  /** `Objects.hash(x)` for one nullable string: 31 * 1 + hashCode(x). */
  function ObjectsHash(x: Option<string>): (h: int)
    ensures INT_MIN <= h <= INT_MAX
  {
    ToInt32(31 + (match x case None => 0 case Some(v) => StringHash(v)))
  }
}

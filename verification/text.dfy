/** The JavaScript string primitives the controllers and screens lean on:
    truthiness of an optional string, `\s` and `String.prototype.trim`, the email
    pattern `^[^\s@]+@[^\s@]+\.[^\s@]+$`, and `parseInt` on decimal text. */
module Text {
  import opened Wrappers

  /** A request or form field that is present and non-empty: the only strings
      JavaScript treats as true in `if (nome)` or `nome && ...`. */
  predicate Truthy(s: Option<string>) {
    s.Some? && s.value != ""
  }

  /** `\s` of a JavaScript regular expression, which is also the set of code points
      `trim` removes: the ECMAScript WhiteSpace and LineTerminator characters. */
  predicate IsSpace(c: char) {
    || c == ' ' || c == '\t' || c == '\n' || c == '\U{B}' || c == '\U{C}' || c == '\r'
    || c == '\U{A0}' || c == '\U{1680}' || ('\U{2000}' <= c <= '\U{200A}')
    || c == '\U{2028}' || c == '\U{2029}' || c == '\U{202F}' || c == '\U{205F}'
    || c == '\U{3000}' || c == '\U{FEFF}'
  }

  predicate AllSpace(s: string) {
    forall k :: 0 <= k < |s| ==> IsSpace(s[k])
  }

  /** How many white-space characters `s` starts with. */
  function LeadingSpace(s: string): (n: nat)
    ensures n <= |s| && AllSpace(s[..n])
    ensures n < |s| ==> !IsSpace(s[n])
  {
    if |s| > 0 && IsSpace(s[0]) then 1 + LeadingSpace(s[1..]) else 0
  }

  /** How many white-space characters `s` ends with. */
  function TrailingSpace(s: string): (n: nat)
    ensures n <= |s| && AllSpace(s[|s| - n..])
    ensures n < |s| ==> !IsSpace(s[|s| - n - 1])
  {
    if |s| > 0 && IsSpace(s[|s| - 1]) then 1 + TrailingSpace(s[..|s| - 1]) else 0
  }

  /** `trimStart`: what is left once the leading white space is dropped. */
  function TrimStart(s: string): (r: string)
    ensures |r| > 0 ==> !IsSpace(r[0])
  {
    s[LeadingSpace(s)..]
  }

  /** `trim`: the infix of `s` between its leading and its trailing white space,
      which is empty exactly when `s` is all white space. */
  function Trim(s: string): (r: string)
    ensures LeadingSpace(s) + |r| <= |s|
    ensures r == s[LeadingSpace(s)..LeadingSpace(s) + |r|]
    ensures AllSpace(s[LeadingSpace(s) + |r|..])
    ensures |r| > 0 ==> !IsSpace(r[0]) && !IsSpace(r[|r| - 1])
    ensures r == "" <==> AllSpace(s)
  {
    var a := LeadingSpace(s);
    var t := s[a..];
    var r := t[..|t| - TrailingSpace(t)];
    assert r == "" ==> s == s[..a] + t[|r|..];
    assert t[|r|..] == s[a + |r|..];
    r
  }

  /** Trimming twice is trimming once. */
  lemma TrimIdempotent(s: string)
    ensures Trim(Trim(s)) == Trim(s)
  {
    var r := Trim(s);
    if |r| > 0 {
      assert LeadingSpace(r) == 0;
      assert TrailingSpace(r) == 0;
    }
  }

  /** `length` of a JavaScript string: UTF-16 code units, so a character beyond
      the Basic Multilingual Plane counts twice. */
  function JsLength(s: string): (n: nat)
    ensures |s| <= n <= 2 * |s|
    ensures (forall k :: 0 <= k < |s| ==> s[k] <= '\U{FFFF}') ==> n == |s|
  {
    if |s| == 0 then 0
    else JsLength(s[..|s| - 1]) + (if s[|s| - 1] <= '\U{FFFF}' then 1 else 2)
  }

  /** A character of the class `[^\s@]` in the email pattern. */
  predicate EmailChar(c: char) {
    !IsSpace(c) && c != '@'
  }

  predicate AllEmailChars(s: string) {
    forall k :: 0 <= k < |s| ==> EmailChar(s[k])
  }

  /** The language of `^[^\s@]+@[^\s@]+\.[^\s@]+$`, read off the pattern: three
      non-empty runs of `[^\s@]` joined by an `@` (at `i`) and a dot (at `j`). */
  ghost predicate EmailPattern(s: string) {
    exists i, j :: EmailSplit(s, i, j)
  }

  ghost predicate EmailSplit(s: string, i: int, j: int) {
    && 0 < i && i + 1 < j && j + 1 < |s|
    && s[i] == '@' && s[j] == '.'
    && AllEmailChars(s[..i]) && AllEmailChars(s[i + 1..j]) && AllEmailChars(s[j + 1..])
  }

  /** Position of the first `c` in `s`, or `|s|` when there is none (`indexOf`, with
      "absent" moved from -1 to the length). */
  function IndexOf(s: string, c: char): (r: nat)
    ensures r <= |s|
    ensures r < |s| ==> s[r] == c
    ensures forall k :: 0 <= k < r ==> s[k] != c
  {
    if |s| == 0 then 0
    else if s[0] == c then 0
    else 1 + IndexOf(s[1..], c)
  }

  /** `RegExp.prototype.test` of the email pattern: the first `@` ends a non-empty
      local part, and what follows it is free of `@` and white space and has a dot
      strictly inside it. */
  function IsEmail(s: string): (b: bool)
    ensures b <==> EmailPattern(s)
  {
    IsEmailMatchesPattern(s);
    IsEmailScan(s)
  }

  function IsEmailScan(s: string): bool {
    var i := IndexOf(s, '@');
    if i == 0 || i == |s| then false
    else
      var d := s[i + 1..];
      && AllEmailChars(s[..i]) && AllEmailChars(d) && |d| >= 3
      && IndexOf(d[1..|d| - 1], '.') < |d| - 2
  }

  lemma IsEmailMatchesPattern(s: string)
    ensures IsEmailScan(s) <==> EmailPattern(s)
  {
    if IsEmailScan(s) {
      ScanGivesSplit(s);
    }
    if EmailPattern(s) {
      var i, j :| EmailSplit(s, i, j);
      SplitGivesScan(s, i, j);
    }
  }

  lemma ScanGivesSplit(s: string)
    requires IsEmailScan(s)
    ensures EmailPattern(s)
  {
    var i := IndexOf(s, '@');
    var d := s[i + 1..];
    var k := IndexOf(d[1..|d| - 1], '.');
    var j := i + 2 + k;
    assert s[j] == '.';
    assert s[i + 1..j] == d[..k + 1];
    assert s[j + 1..] == d[k + 2..];
    assert EmailSplit(s, i, j);
  }

  lemma SplitGivesScan(s: string, i: int, j: int)
    requires EmailSplit(s, i, j)
    ensures IsEmailScan(s)
  {
    assert s[..i][i - 1] == s[i - 1];
    assert IndexOf(s, '@') == i;
    var d := s[i + 1..];
    assert AllEmailChars(d) by {
      forall k | 0 <= k < |d|
        ensures EmailChar(d[k])
      {
        if i + 1 + k < j {
          assert d[k] == s[i + 1..j][k];
        } else if i + 1 + k > j {
          assert d[k] == s[j + 1..][i + k - j];
        }
      }
    }
    var m := d[1..|d| - 1];
    assert m[j - i - 2] == '.';
  }

  predicate IsDigit(c: char) {
    '0' <= c <= '9'
  }

  predicate AllDigits(s: string) {
    forall k :: 0 <= k < |s| ==> IsDigit(s[k])
  }

  /** The longest prefix of `s` made of decimal digits. */
  function DigitPrefix(s: string): (r: string)
    ensures |r| <= |s| && r == s[..|r|]
    ensures AllDigits(r)
    ensures |r| < |s| ==> !IsDigit(s[|r|])
  {
    if |s| > 0 && IsDigit(s[0]) then [s[0]] + DigitPrefix(s[1..]) else ""
  }

  /** The number a run of decimal digits spells, most significant digit first. */
  function DigitsValue(ds: string): nat
    requires AllDigits(ds)
  {
    if |ds| == 0 then 0
    else 10 * DigitsValue(ds[..|ds| - 1]) + ((ds[|ds| - 1] as int) - ('0' as int))
  }

  /** `parseInt(s)` on decimal text: leading white space is skipped, one optional
      sign is read, then the longest run of decimal digits; with no digit at all
      the result is `NaN`, here `None`. */
  function ParseInt(s: string): (r: Option<int>)
    ensures r.None? <==> DigitPrefix(Unsigned(TrimStart(s))) == ""
  {
    var t := TrimStart(s);
    var ds := DigitPrefix(Unsigned(t));
    if ds == "" then None
    else if |t| > 0 && t[0] == '-' then Some(-(DigitsValue(ds) as int))
    else Some(DigitsValue(ds))
  }

  /** What follows one leading sign character, if there is one. */
  function Unsigned(t: string): string {
    if |t| > 0 && (t[0] == '-' || t[0] == '+') then t[1..] else t
  }

  /** `String(n)` for an integer: decimal digits, with a minus sign when negative. */
  function IntToString(n: int): (r: string)
    ensures |r| > 0
  {
    if n < 0 then "-" + NatToString(-n) else NatToString(n)
  }

  function NatToString(n: nat): (r: string)
    ensures |r| > 0 && AllDigits(r)
  {
    var last := [(('0' as int) + n % 10) as char];
    if n < 10 then last else NatToString(n / 10) + last
  }

  lemma {:induction false} NatToStringValue(n: nat)
    ensures DigitsValue(NatToString(n)) == n
  {
    var r := NatToString(n);
    if n >= 10 {
      NatToStringValue(n / 10);
      assert r[..|r| - 1] == NatToString(n / 10);
    }
  }

  /** An id stored as its decimal text reads back, through `parseInt`, as the same id. */
  lemma ParseIntRoundTrip(n: int)
    ensures ParseInt(IntToString(n)) == Some(n)
  {
    var m: nat := if n < 0 then -n else n;
    var digits := NatToString(m);
    NatToStringValue(m);
    DigitPrefixOfDigits(digits);
    var s := IntToString(n);
    assert !IsSpace(s[0]);
    assert LeadingSpace(s) == 0;
    assert TrimStart(s) == s;
    if n < 0 {
      assert s == "-" + digits;
      assert Unsigned(s) == digits;
    } else {
      assert !(s[0] == '-' || s[0] == '+');
      assert Unsigned(s) == digits;
    }
  }

  lemma {:induction false} DigitPrefixOfDigits(s: string)
    requires AllDigits(s)
    ensures DigitPrefix(s) == s
  {
    if |s| > 0 {
      DigitPrefixOfDigits(s[1..]);
    }
  }
}

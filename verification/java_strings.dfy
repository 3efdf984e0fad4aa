/** The few `java.lang.String` and `java.io.File` operations the build wrapper
    relies on, stated over `seq<char>`. */
module JavaStrings {
  import opened Wrappers

  /** `sub` occurs in `s` starting at index `i`. */
  ghost predicate OccursAt(s: string, sub: string, i: int) {
    0 <= i && i + |sub| <= |s| && s[i..i + |sub|] == sub
  }

  /** `sub` occurs somewhere in `s`. */
  ghost predicate OccursIn(s: string, sub: string) {
    exists i :: OccursAt(s, sub, i)
  }

  /** An occurrence in `s[1..]` is an occurrence in `s`, one position later. */
  lemma OccursAtShift(s: string, sub: string, i: int)
    requires 1 <= |s| && 0 <= i
    ensures OccursAt(s, sub, i + 1) <==> OccursAt(s[1..], sub, i)
  {
    if i + 1 + |sub| <= |s| {
      assert s[1..][i..i + |sub|] == s[i + 1..i + 1 + |sub|];
    }
  }

  /** `String.indexOf(sub)`: the leftmost occurrence of `sub` in `s`. */
  function IndexOf(s: string, sub: string): (r: Option<nat>)
    ensures r.Some? ==> OccursAt(s, sub, r.value)
    ensures r.Some? ==> forall j :: 0 <= j < r.value ==> !OccursAt(s, sub, j)
    ensures r.None? <==> !OccursIn(s, sub)
    decreases |s|
  {
    if |s| < |sub| then None
    else if s[..|sub|] == sub then Some(0)
    else
      match IndexOf(s[1..], sub)
      case None =>
        assert forall i :: 0 <= i < |s| ==> !OccursAt(s, sub, i) by {
          forall i | 1 <= i < |s| ensures !OccursAt(s, sub, i) {
            OccursAtShift(s, sub, i - 1);
          }
        }
        None
      case Some(k) =>
        assert forall j :: 0 < j <= k ==> !OccursAt(s, sub, j) by {
          forall j | 0 < j <= k ensures !OccursAt(s, sub, j) {
            OccursAtShift(s, sub, j - 1);
          }
        }
        OccursAtShift(s, sub, k);
        Some(k + 1)
  }

  /** `String.contains(sub)`. */
  predicate Contains(s: string, sub: string)
    ensures Contains(s, sub) <==> OccursIn(s, sub)
  {
    IndexOf(s, sub).Some?
  }

  /** Lower-cases an ASCII letter; every other character is kept. */
  function LowerChar(c: char): char {
    if 'A' <= c <= 'Z' then (c as int + 32) as char else c
  }

  /** `String.toLowerCase()`, restricted to ASCII letters. */
  function ToLower(s: string): (r: string)
    ensures |r| == |s|
    ensures forall i :: 0 <= i < |s| ==> r[i] == LowerChar(s[i])
  {
    if s == [] then [] else [LowerChar(s[0])] + ToLower(s[1..])
  }

  predicate IsDigit(c: char) {
    '0' <= c <= '9'
  }

  function DigitChar(d: nat): (c: char)
    requires d < 10
    ensures IsDigit(c)
  {
    (d + '0' as int) as char
  }

  function DigitValue(c: char): (d: nat)
    requires IsDigit(c)
    ensures d < 10
  {
    c as int - '0' as int
  }

  /** `Integer.toString(n)` for a non-negative `n`: decimal digits without a
      leading zero. */
  function Decimal(n: nat): (r: string)
    ensures |r| >= 1
    ensures forall i :: 0 <= i < |r| ==> IsDigit(r[i])
    ensures r[0] == '0' ==> n == 0
    decreases n
  {
    if n < 10 then [DigitChar(n)] else Decimal(n / 10) + [DigitChar(n % 10)]
  }

  /** The value of a string of decimal digits; the inverse of `Decimal`. */
  function ParseDecimal(s: string): nat
    requires forall i :: 0 <= i < |s| ==> IsDigit(s[i])
  {
    if s == [] then 0 else ParseDecimal(s[..|s| - 1]) * 10 + DigitValue(s[|s| - 1])
  }

  /** Rendering a build number and reading it back gives the number. */
  lemma {:induction false} DecimalRoundTrip(n: nat)
    ensures ParseDecimal(Decimal(n)) == n
    decreases n
  {
    if n >= 10 {
      DecimalRoundTrip(n / 10);
      var d := Decimal(n);
      assert d[..|d| - 1] == Decimal(n / 10);
    }
  }

  /** Distinct build numbers render to distinct strings. */
  lemma DecimalInjective(m: nat, n: nat)
    requires Decimal(m) == Decimal(n)
    ensures m == n
  {
    DecimalRoundTrip(m);
    DecimalRoundTrip(n);
  }

  /** The string conversion Java applies to a reference inside `+`: a null
      String reads as "null". */
  function Str(s: Option<string>): string {
    match s
    case None => "null"
    case Some(v) => v
  }

  /** The part of `s` after its last `c`; all of `s` when `c` does not occur. */
  function AfterLast(s: string, c: char): (r: string)
    ensures c !in r
    ensures |r| <= |s| && r == s[|s| - |r|..]
    ensures |r| < |s| ==> s[|s| - |r| - 1] == c
    decreases |s|
  {
    if s == [] then []
    else if s[|s| - 1] == c then []
    else
      var init := s[..|s| - 1];
      var q := AfterLast(init, c);
      assert s == init + [s[|s| - 1]];
      assert q + [s[|s| - 1]] == s[|s| - |q| - 1..];
      q + [s[|s| - 1]]
  }

  /** Whatever precedes a last `c`, the part after it is what `AfterLast`
      finds. */
  lemma {:induction false} AfterLastAppend(s: string, c: char, t: string)
    requires c !in t
    ensures AfterLast(s + [c] + t, c) == t
    decreases |t|
  {
    if t != [] {
      var u := s + [c] + t;
      assert u[..|u| - 1] == s + [c] + t[..|t| - 1];
      AfterLastAppend(s, c, t[..|t| - 1]);
    }
  }

  /** `s` without its trailing run of `c`. */
  function StripTrailing(s: string, c: char): (r: string)
    ensures |r| <= |s| && r == s[..|r|]
    ensures |r| > 0 ==> r[|r| - 1] != c
    ensures forall i :: |r| <= i < |s| ==> s[i] == c
    decreases |s|
  {
    if s != [] && s[|s| - 1] == c then StripTrailing(s[..|s| - 1], c) else s
  }

  /** `new File(path).getName()` on a Unix file system: the path is
      normalised (trailing slashes dropped) and the part after its last
      slash is the name. */
  function FileName(path: string): (r: string)
    ensures '/' !in r
    ensures '/' !in path ==> r == path
    ensures
      var normal := StripTrailing(path, '/');
      && |r| <= |normal| && r == normal[|normal| - |r|..]
      && (|r| < |normal| ==> normal[|normal| - |r| - 1] == '/')
  {
    AfterLast(StripTrailing(path, '/'), '/')
  }

  /** The name of `dir/name` is `name`, whatever the directory. */
  lemma FileNameOfChild(dir: string, name: string)
    requires '/' !in name && name != ""
    ensures FileName(dir + "/" + name) == name
  {
    var p := dir + "/" + name;
    assert p[|p| - 1] == name[|name| - 1];
    assert StripTrailing(p, '/') == p;
    assert p == dir + ['/'] + name;
    AfterLastAppend(dir, '/', name);
  }
}

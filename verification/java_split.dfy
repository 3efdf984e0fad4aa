/** `String.split(sep)` with Java's default limit of 0, for a separator such
    as the platform line separator that holds no regular-expression
    metacharacter: the string is cut at the leftmost non-overlapping
    occurrences of `sep`, trailing empty pieces are dropped, and a string in
    which `sep` does not occur splits to itself. */
module JavaSplit {
  import opened Wrappers
  import opened JavaStrings

  /** Nothing before the leftmost occurrence contains the separator. */
  lemma PrefixBeforeFirstMatch(s: string, sep: string, i: nat)
    requires |sep| > 0
    requires OccursAt(s, sep, i)
    requires forall j :: 0 <= j < i ==> !OccursAt(s, sep, j)
    ensures !OccursIn(s[..i], sep)
  {
    forall j | OccursAt(s[..i], sep, j) ensures false {
      assert s[..i][j..j + |sep|] == s[j..j + |sep|];
      assert OccursAt(s, sep, j);
    }
  }

  /** Every piece between separators, trailing empty pieces included. */
  function SplitAll(s: string, sep: string): (r: seq<string>)
    requires |sep| > 0
    ensures |r| >= 1
    ensures forall k :: 0 <= k < |r| ==> !OccursIn(r[k], sep)
    decreases |s|
  {
    match IndexOf(s, sep)
    case None => [s]
    case Some(i) =>
      PrefixBeforeFirstMatch(s, sep, i);
      [s[..i]] + SplitAll(s[i + |sep|..], sep)
  }

  /** The pieces glued back together with `sep` between them. */
  function Join(parts: seq<string>, sep: string): string {
    if |parts| == 0 then ""
    else if |parts| == 1 then parts[0]
    else parts[0] + sep + Join(parts[1..], sep)
  }

  /** Joining a leading piece onto at least one more puts `sep` after it. */
  lemma JoinCons(head: string, tail: seq<string>, sep: string)
    requires |tail| >= 1
    ensures Join([head] + tail, sep) == head + sep + Join(tail, sep)
  {
    assert ([head] + tail)[1..] == tail;
  }

  /** Cutting at every separator loses nothing: joining the pieces gives the
      string back. */
  lemma {:induction false} JoinSplitAll(s: string, sep: string)
    requires |sep| > 0
    ensures Join(SplitAll(s, sep), sep) == s
    decreases |s|
  {
    var m := IndexOf(s, sep);
    if m.Some? {
      var i := m.value;
      var rest := s[i + |sep|..];
      var tail := SplitAll(rest, sep);
      JoinSplitAll(rest, sep);
      assert SplitAll(s, sep) == [s[..i]] + tail;
      JoinCons(s[..i], tail, sep);
      assert s[i..] == sep + rest by {
        assert s[i..i + |sep|] == sep;
      }
      assert s == s[..i] + s[i..];
    }
  }

  /** `a` without its trailing run of empty strings. */
  function DropTrailingEmpty(a: seq<string>): (r: seq<string>)
    ensures |r| <= |a| && r == a[..|r|]
    ensures |r| > 0 ==> r[|r| - 1] != ""
    ensures forall k :: |r| <= k < |a| ==> a[k] == ""
    decreases |a|
  {
    if |a| > 0 && a[|a| - 1] == "" then DropTrailingEmpty(a[..|a| - 1]) else a
  }

  /** `s.split(sep)`. */
  function Split(s: string, sep: string): (r: seq<string>)
    requires |sep| > 0
    ensures forall k :: 0 <= k < |r| ==> !OccursIn(r[k], sep)
    ensures s == "" ==> r == [""]
    ensures s != "" && |r| > 0 ==> r[|r| - 1] != ""
    ensures s != "" ==> |r| <= |SplitAll(s, sep)| && r == SplitAll(s, sep)[..|r|]
    ensures s != "" ==> forall k :: |r| <= k < |SplitAll(s, sep)| ==> SplitAll(s, sep)[k] == ""
  {
    if !Contains(s, sep) then [s] else DropTrailingEmpty(SplitAll(s, sep))
  }

  /** `k` copies of `sep`. */
  function Repeat(sep: string, k: nat): string {
    if k == 0 then "" else sep + Repeat(sep, k - 1)
  }

  /** `s` is made of one or more separators and nothing else. */
  ghost predicate OnlySeparators(s: string, sep: string) {
    exists k: nat :: 1 <= k && s == Repeat(sep, k)
  }

  /** A run of `k` separators cuts into `k + 1` empty pieces. */
  lemma {:induction false} SplitAllRepeat(sep: string, k: nat)
    requires |sep| > 0
    ensures |SplitAll(Repeat(sep, k), sep)| == k + 1
    ensures forall j :: 0 <= j < k + 1 ==> SplitAll(Repeat(sep, k), sep)[j] == ""
  {
    if k > 0 {
      var s := Repeat(sep, k);
      assert s[..|sep|] == sep;
      assert IndexOf(s, sep) == Some(0);
      assert s[|sep|..] == Repeat(sep, k - 1);
      SplitAllRepeat(sep, k - 1);
    }
  }

  /** Joining `n` empty pieces gives `n - 1` separators. */
  lemma {:induction false} JoinAllEmpty(parts: seq<string>, sep: string)
    requires |parts| >= 1
    requires forall j :: 0 <= j < |parts| ==> parts[j] == ""
    ensures Join(parts, sep) == Repeat(sep, |parts| - 1)
    decreases |parts|
  {
    if |parts| > 1 {
      JoinAllEmpty(parts[1..], sep);
    }
  }

  /** `split` returns no element at all exactly when the string is a
      non-empty run of separators. */
  lemma SplitEmptyIff(s: string, sep: string)
    requires |sep| > 0
    ensures |Split(s, sep)| == 0 <==> OnlySeparators(s, sep)
  {
    if |Split(s, sep)| == 0 {
      var parts := SplitAll(s, sep);
      assert Contains(s, sep);
      JoinSplitAll(s, sep);
      JoinAllEmpty(parts, sep);
      assert s == Repeat(sep, |parts| - 1);
    }
    if OnlySeparators(s, sep) {
      var k: nat :| 1 <= k && s == Repeat(sep, k);
      SplitAllRepeat(sep, k);
      assert s[..|sep|] == sep;
      assert OccursAt(s, sep, 0);
    }
  }
}

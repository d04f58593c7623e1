/** The two Python string operations the pipeline relies on:
    `s.split(sep)` and `s.rsplit(" ", 1)`. */
module Text {
  import opened Common

  /** `sep` occurs in `s` starting at index `i`. */
  predicate IsAt(s: string, sep: string, i: nat) {
    i + |sep| <= |s| && s[i..i + |sep|] == sep
  }

  predicate Occurs(sep: string, s: string) {
    exists i: nat :: i <= |s| && IsAt(s, sep, i)
  }

  /** The leftmost occurrence of `sep` in `s` at or after index `k`. */
  function FindFrom(s: string, sep: string, k: nat): (r: Option<nat>)
    requires k <= |s|
    ensures r.Some? ==> k <= r.value && IsAt(s, sep, r.value)
    ensures r.Some? ==> forall j: nat :: k <= j < r.value ==> !IsAt(s, sep, j)
    ensures r.None? ==> forall j: nat :: k <= j ==> !IsAt(s, sep, j)
    decreases |s| - k
  {
    if k + |sep| > |s| then None
    else if s[k..k + |sep|] == sep then Some(k)
    else FindFrom(s, sep, k + 1)
  }

  /** Concatenation of `parts` with `sep` between neighbours (`sep.join(parts)`). */
  function Join(parts: seq<string>, sep: string): string {
    if |parts| == 0 then ""
    else if |parts| == 1 then parts[0]
    else parts[0] + sep + Join(parts[1..], sep)
  }

  /** A prefix of `s` in which no occurrence of `sep` fits does not contain `sep`. */
  lemma NoOccurrenceInPrefix(s: string, sep: string, m: nat)
    requires m <= |s|
    requires forall j: nat :: j + |sep| <= m ==> !IsAt(s, sep, j)
    ensures !Occurs(sep, s[..m])
  {
    forall j: nat | j <= m ensures !IsAt(s[..m], sep, j) {
      if j + |sep| <= m {
        assert s[..m][j..j + |sep|] == s[j..j + |sep|];
        assert !IsAt(s, sep, j);
      }
    }
  }

  /** Before the leftmost occurrence of `sep`, at `i`, there is no `sep`,
      not even one that would overlap the occurrence at `i`. */
  lemma BeforeFirst(s: string, sep: string, i: nat)
    requires sep != [] && IsAt(s, sep, i)
    requires forall j: nat :: j < i ==> !IsAt(s, sep, j)
    ensures !Occurs(sep, s[..i])
    ensures !Occurs(sep, s[..i] + sep[..|sep| - 1])
  {
    NoOccurrenceInPrefix(s, sep, i);
    NoOccurrenceInPrefix(s, sep, i + |sep| - 1);
    assert s[..i] + sep[..|sep| - 1] == s[..i + |sep| - 1] by {
      assert s[i..i + |sep|] == sep;
      assert s[..i + |sep| - 1] == s[..i] + s[i..i + |sep| - 1];
    }
  }

  /** Cutting `s` around an occurrence of `sep` at `i` and gluing back. */
  lemma CutAt(s: string, sep: string, i: nat)
    requires IsAt(s, sep, i)
    ensures s[..i] + sep + s[i + |sep|..] == s
  {
    assert s == s[..i] + s[i..i + |sep|] + s[i + |sep|..];
  }

  /** Python's `s.split(sep)`: the pieces between the non-overlapping
      occurrences of `sep`, found from left to right. Python refuses an
      empty separator. Each cut is at the leftmost occurrence remaining: no
      piece followed by its separator holds an earlier occurrence, not even
      one overlapping the separator. */
  function Split(s: string, sep: string): (parts: seq<string>)
    requires sep != []
    ensures |parts| >= 1
    ensures Join(parts, sep) == s
    ensures forall i :: 0 <= i < |parts| ==> !Occurs(sep, parts[i])
    ensures forall k :: 0 <= k < |parts| - 1 ==> !Occurs(sep, parts[k] + sep[..|sep| - 1])
    ensures !Occurs(sep, s) <==> parts == [s]
    decreases |s|
  {
    match FindFrom(s, sep, 0)
    case None => [s]
    case Some(i) =>
      var rest := Split(s[i + |sep|..], sep);
      BeforeFirst(s, sep, i);
      CutAt(s, sep, i);
      assert ([s[..i]] + rest)[1..] == rest;
      assert forall k :: 1 <= k < |rest| + 1 ==> ([s[..i]] + rest)[k] == rest[k - 1];
      assert i <= |s| && IsAt(s, sep, i);
      [s[..i]] + rest
  }

  /** The index of the last `c` in `t`, if any. */
  function LastIndexOf(t: string, c: char): (r: Option<nat>)
    ensures r.Some? ==> r.value < |t| && t[r.value] == c
    ensures r.Some? ==> forall j :: r.value < j < |t| ==> t[j] != c
    ensures r.None? <==> c !in t
  {
    if |t| == 0 then None
    else if t[|t| - 1] == c then Some(|t| - 1)
    else
      var r := LastIndexOf(t[..|t| - 1], c);
      assert t == t[..|t| - 1] + [t[|t| - 1]];
      r
  }

  /** Python's `t.rsplit(" ", 1)`: the whole string when it has no space,
      otherwise the text before and the text after its last space. */
  function RSplitSpace(t: string): (parts: seq<string>)
    ensures ' ' !in t <==> parts == [t]
    ensures ' ' in t <==> |parts| == 2
    ensures |parts| == 2 ==> parts[0] + " " + parts[1] == t && ' ' !in parts[1]
  {
    match LastIndexOf(t, ' ')
    case None => [t]
    case Some(i) =>
      assert t == t[..i] + " " + t[i + 1..] by { assert t == t[..i] + [t[i]] + t[i + 1..]; }
      [t[..i], t[i + 1..]]
  }
}

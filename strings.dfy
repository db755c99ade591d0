/**
 * The PHP string primitives that Period.php is built from: `explode` (with and
 * without a limit of two), `implode`, and `strtr` used to delete characters.
 */
module Strings {
  import opened Wrappers

  /** `d` occurs in `s` starting at index `i`. */
  predicate OccursAt(s: string, d: string, i: nat) {
    i + |d| <= |s| && s[i..i + |d|] == d
  }

  /** `d` occurs somewhere in `s`. */
  predicate Contains(s: string, d: string) {
    exists i: nat :: i <= |s| && OccursAt(s, d, i)
  }

  /** The leftmost occurrence of `d` in `s` at or after index `k`. */
  function FindFrom(s: string, d: string, k: nat): (r: Option<nat>)
    requires k <= |s|
    ensures r.Some? ==> k <= r.value && OccursAt(s, d, r.value)
    ensures forall j: nat :: k <= j && (r.None? || j < r.value) ==> !OccursAt(s, d, j)
    decreases |s| - k
  {
    if k + |d| > |s| then None
    else if s[k..k + |d|] == d then Some(k)
    else FindFrom(s, d, k + 1)
  }

  /** The leftmost occurrence of `d` in `s`, the way `explode` scans. */
  function Find(s: string, d: string): Option<nat> {
    FindFrom(s, d, 0)
  }

  /** Any index where `d` occurs with no earlier occurrence is what `Find` returns. */
  lemma FindIsLeftmost(s: string, d: string, i: nat)
    requires OccursAt(s, d, i)
    requires forall j: nat :: j < i ==> !OccursAt(s, d, j)
    ensures Find(s, d) == Some(i)
  {
  }

  /** Appending text after the leftmost occurrence does not move it. */
  lemma FindExtend(a: string, b: string, d: string, i: nat)
    requires Find(a, d) == Some(i)
    ensures Find(a + b, d) == Some(i)
  {
    assert OccursAt(a, d, i);
    assert (a + b)[i..i + |d|] == a[i..i + |d|];
    forall j: nat | j < i
      ensures !OccursAt(a + b, d, j)
    {
      assert !OccursAt(a, d, j);
      if j + |d| <= |a| {
        assert (a + b)[j..j + |d|] == a[j..j + |d|];
      }
    }
    FindIsLeftmost(a + b, d, i);
  }

  /** `explode(d, s)`: the pieces of `s` between the occurrences of `d`. */
  function Split(s: string, d: string): (parts: seq<string>)
    requires |d| > 0
    ensures |parts| > 0
    decreases |s|
  {
    match Find(s, d)
    case None => [s]
    case Some(i) => [s[..i]] + Split(s[i + |d|..], d)
  }

  /** The number of occurrences of `d` that `explode` consumes, leftmost first. */
  function Count(s: string, d: string): nat
    requires |d| > 0
    decreases |s|
  {
    match Find(s, d)
    case None => 0
    case Some(i) => 1 + Count(s[i + |d|..], d)
  }

  /** `implode(d, parts)`: the parts with `d` between neighbours. */
  function Join(parts: seq<string>, d: string): string {
    if |parts| == 0 then ""
    else if |parts| == 1 then parts[0]
    else parts[0] + d + Join(parts[1..], d)
  }

  /** Splitting yields one more piece than there are delimiters consumed. */
  lemma {:induction false} SplitCount(s: string, d: string)
    requires |d| > 0
    ensures |Split(s, d)| == Count(s, d) + 1
    decreases |s|
  {
    match Find(s, d)
    case None =>
    case Some(i) => SplitCount(s[i + |d|..], d);
  }

  /** With a one-character delimiter, the pieces number its occurrences plus one. */
  lemma {:induction false} SplitCountChar(s: string, c: char)
    ensures |Split(s, [c])| == multiset(s)[c] + 1
    decreases |s|
  {
    match Find(s, [c])
    case None =>
      forall j | 0 <= j < |s| ensures s[j] != c {
        assert !OccursAt(s, [c], j);
        assert s[j..j + 1] == [s[j]];
      }
      assert c !in multiset(s);
    case Some(i) =>
      var rest := s[i + 1..];
      SplitCountChar(rest, c);
      forall j | 0 <= j < i ensures s[..i][j] != c {
        assert !OccursAt(s, [c], j);
        assert s[j..j + 1] == [s[j]];
      }
      assert c !in multiset(s[..i]);
      assert s[i..i + 1] == [c];
      assert s == s[..i] + [c] + rest;
      assert multiset(s) == multiset(s[..i]) + multiset{c} + multiset(rest);
  }

  /** No piece produced by splitting contains the delimiter. */
  lemma {:induction false} SplitPartsFree(s: string, d: string)
    requires |d| > 0
    ensures forall p :: p in Split(s, d) ==> !Contains(p, d)
    decreases |s|
  {
    match Find(s, d)
    case None =>
      assert forall j: nat :: !OccursAt(s, d, j);
    case Some(i) =>
      SplitPartsFree(s[i + |d|..], d);
      var head := s[..i];
      forall j: nat | OccursAt(head, d, j) ensures false {
        assert head[j..j + |d|] == s[j..j + |d|];
        assert OccursAt(s, d, j);
      }
      assert Split(s, d) == [head] + Split(s[i + |d|..], d);
  }

  /** Joining the pieces of a split gives back the original text, for any text. */
  lemma {:induction false} JoinSplit(s: string, d: string)
    requires |d| > 0
    ensures Join(Split(s, d), d) == s
    decreases |s|
  {
    match Find(s, d)
    case None =>
    case Some(i) =>
      var rest := s[i + |d|..];
      JoinSplit(rest, d);
      var tail := Split(rest, d);
      assert Split(s, d) == [s[..i]] + tail;
      assert ([s[..i]] + tail)[1..] == tail;
      assert s[i..i + |d|] == d;
      assert s == s[..i] + d + rest;
  }

  /**
   * `p` can be recovered by splitting after `d` is appended: `d` does not occur
   * in `p + d` before the appended copy.
   */
  predicate Separable(p: string, d: string) {
    Find(p + d, d) == Some(|p|)
  }

  /** For a one-character delimiter, separable means the piece does not contain it. */
  lemma SeparableChar(p: string, c: char)
    ensures Separable(p, [c]) <==> c !in p
  {
    if c !in p {
      forall j: nat | j < |p| ensures !OccursAt(p + [c], [c], j) {
        assert (p + [c])[j..j + 1] == [p[j]];
      }
      assert (p + [c])[|p|..|p| + 1] == [c];
      FindIsLeftmost(p + [c], [c], |p|);
    } else {
      var j :| 0 <= j < |p| && p[j] == c;
      assert (p + [c])[j..j + 1] == [c];
      assert OccursAt(p + [c], [c], j);
    }
  }

  /** A separable piece contains no delimiter, so it splits to itself. */
  lemma SplitSeparable(p: string, d: string)
    requires |d| > 0 && Separable(p, d)
    ensures Split(p, d) == [p]
  {
    match Find(p, d)
    case None =>
    case Some(j) =>
      assert OccursAt(p, d, j);
      assert (p + d)[j..j + |d|] == p[j..j + |d|];
      assert OccursAt(p + d, d, j);
  }

  /** A piece that does not contain the delimiter splits to itself. */
  lemma SplitFree(p: string, d: string)
    requires |d| > 0 && !Contains(p, d)
    ensures Split(p, d) == [p]
  {
  }

  /**
   * The parts that survive joining and splitting again: every part but the
   * last is separable, and the last does not contain the delimiter.
   */
  predicate Recoverable(parts: seq<string>, d: string) {
    && |parts| > 0
    && (forall i :: 0 <= i < |parts| - 1 ==> Separable(parts[i], d))
    && !Contains(parts[|parts| - 1], d)
  }

  /** Splitting the joined text restores every recoverable list of parts. */
  lemma {:induction false} SplitJoinSufficient(parts: seq<string>, d: string)
    requires |d| > 0 && Recoverable(parts, d)
    ensures Split(Join(parts, d), d) == parts
    decreases |parts|
  {
    if |parts| == 1 {
      SplitFree(parts[0], d);
    } else {
      var p, rest := parts[0], Join(parts[1..], d);
      assert Separable(p, d);
      assert Recoverable(parts[1..], d);
      SplitJoinSufficient(parts[1..], d);
      FindExtend(p + d, rest, d, |p|);
      assert p + d + rest == (p + d) + rest;
      var s := Join(parts, d);
      assert s == p + d + rest;
      assert s[..|p|] == p;
      assert s[|p| + |d|..] == rest;
      assert Split(s, d) == [p] + Split(rest, d);
    }
  }

  /** When splitting yields more than one piece, the first delimiter ends the first piece. */
  lemma SplitHead(s: string, d: string)
    requires |d| > 0 && |Split(s, d)| > 1
    ensures Find(s, d) == Some(|Split(s, d)[0]|)
    ensures Split(s, d)[1..] == Split(s[|Split(s, d)[0]| + |d|..], d)
  {
    assert Find(s, d).Some?;
    var i := Find(s, d).value;
    assert Split(s, d) == [s[..i]] + Split(s[i + |d|..], d);
  }

  /** A piece that the leftmost delimiter ends is separable. */
  lemma HeadSeparable(p: string, d: string, rest: string)
    requires Find(p + d + rest, d) == Some(|p|)
    ensures Separable(p, d)
  {
    var s := p + d + rest;
    assert (p + d)[|p|..|p| + |d|] == d;
    forall j: nat | j < |p| ensures !OccursAt(p + d, d, j) {
      assert !OccursAt(s, d, j);
      assert (p + d)[j..j + |d|] == s[j..j + |d|];
    }
    FindIsLeftmost(p + d, d, |p|);
  }

  /** Only recoverable lists of parts come back from joining and splitting again. */
  lemma {:induction false} SplitJoinNecessary(parts: seq<string>, d: string)
    requires |d| > 0 && Split(Join(parts, d), d) == parts
    ensures Recoverable(parts, d)
    decreases |parts|
  {
    var s := Join(parts, d);
    SplitPartsFree(s, d);
    assert parts[|parts| - 1] in Split(s, d);
    if |parts| > 1 {
      var p, rest := parts[0], Join(parts[1..], d);
      assert s == p + d + rest;
      SplitHead(s, d);
      assert s[|p| + |d|..] == rest;
      SplitJoinNecessary(parts[1..], d);
      HeadSeparable(p, d, rest);
      forall i | 0 <= i < |parts| - 1 ensures Separable(parts[i], d) {
        if i > 0 {
          assert parts[i] == parts[1..][i - 1];
        }
      }
    }
  }

  /**
   * `explode` after `implode` gives the parts back exactly when they are
   * recoverable (for a one-character delimiter: when no part contains it).
   */
  lemma SplitJoin(parts: seq<string>, d: string)
    requires |d| > 0
    ensures Split(Join(parts, d), d) == parts <==> Recoverable(parts, d)
  {
    if Recoverable(parts, d) {
      SplitJoinSufficient(parts, d);
    }
    if Split(Join(parts, d), d) == parts {
      SplitJoinNecessary(parts, d);
    }
  }

  /** A multi-character delimiter can be rebuilt across a piece boundary. */
  lemma SplitJoinCounterexample()
    ensures !Contains("a", "aa") && !Contains("x", "aa")
    ensures Split(Join(["a", "x"], "aa"), "aa") == ["", "ax"]
  {
    assert Join(["a", "x"], "aa") == "aaax";
    assert OccursAt("aaax", "aa", 0);
    FindIsLeftmost("aaax", "aa", 0);
    assert "aaax"[2..] == "ax";
    assert "ax"[0..2] != "aa" by { assert "ax"[0..2][1] == 'x'; }
    assert FindFrom("ax", "aa", 1) == None;
    forall j: nat ensures !OccursAt("a", "aa", j) && !OccursAt("x", "aa", j) { }
  }

  /**
   * `explode(sep, s, 2)`: the text before the first `sep` and, when there is
   * one, the text after it.
   */
  function SplitFirst(s: string, sep: char): (r: (string, Option<string>))
    ensures r.1.None? ==> r.0 == s && sep !in s
    ensures r.1.Some? ==> s == r.0 + [sep] + r.1.value && sep !in r.0
  {
    if s == [] then (s, None)
    else if s[0] == sep then ([], Some(s[1..]))
    else
      var (head, tail) := SplitFirst(s[1..], sep);
      assert s == [s[0]] + s[1..];
      ([s[0]] + head, tail)
  }

  /** A text with a separator splits at the first one, whatever follows it. */
  lemma {:induction false} SplitFirstAt(a: string, b: string, sep: char)
    requires sep !in a
    ensures SplitFirst(a + [sep] + b, sep) == (a, Some(b))
    decreases |a|
  {
    var s := a + [sep] + b;
    if a == [] {
      assert s[1..] == b;
    } else {
      assert s[1..] == a[1..] + [sep] + b;
      SplitFirstAt(a[1..], b, sep);
      assert [a[0]] + a[1..] == a;
    }
  }

  /** A separator of the `strtr` call in `setJsonValue`: `:` and `-` are deleted. */
  predicate IsSeparator(c: char) {
    c == ':' || c == '-'
  }

  /** `s` holds no `:` and no `-`. */
  predicate NoSeparators(s: string) {
    forall i :: 0 <= i < |s| ==> !IsSeparator(s[i])
  }

  /** `strtr(s, [':' => '', '-' => ''])`: `s` with every `:` and `-` deleted. */
  function StripSeparators(s: string): string {
    if s == [] then []
    else (if IsSeparator(s[0]) then [] else [s[0]]) + StripSeparators(s[1..])
  }

  /**
   * Deletion removes every `:` and `-` and keeps every other character
   * (`/` included) exactly as often as it occurs.
   */
  lemma {:induction false} StripCounts(s: string)
    ensures forall c :: multiset(StripSeparators(s))[c] == if IsSeparator(c) then 0 else multiset(s)[c]
    decreases |s|
  {
    if s != [] {
      StripCounts(s[1..]);
      assert s == [s[0]] + s[1..];
    }
  }

  /** Deleting characters works piecewise, so the order of what remains is kept. */
  lemma {:induction false} StripConcat(a: string, b: string)
    ensures StripSeparators(a + b) == StripSeparators(a) + StripSeparators(b)
    decreases |a|
  {
    if a != [] {
      assert (a + b)[0] == a[0];
      assert (a + b)[1..] == a[1..] + b;
      StripConcat(a[1..], b);
      var h := if IsSeparator(a[0]) then [] else [a[0]];
      calc {
        StripSeparators(a + b);
        h + StripSeparators(a[1..] + b);
        h + (StripSeparators(a[1..]) + StripSeparators(b));
        (h + StripSeparators(a[1..])) + StripSeparators(b);
      }
    } else {
      assert a + b == b;
    }
  }

  /** A text with no `:` or `-` is left unchanged. */
  lemma {:induction false} StripUnchanged(s: string)
    requires NoSeparators(s)
    ensures StripSeparators(s) == s
    decreases |s|
  {
    if s != [] {
      StripUnchanged(s[1..]);
    }
  }

  /** Deleting the separators a second time changes nothing. */
  lemma StripIdempotent(s: string)
    ensures NoSeparators(StripSeparators(s))
    ensures StripSeparators(StripSeparators(s)) == StripSeparators(s)
  {
    var r := StripSeparators(s);
    StripCounts(s);
    forall i | 0 <= i < |r| ensures !IsSeparator(r[i]) {
      assert r[i] in multiset(r);
    }
    StripUnchanged(r);
  }
}

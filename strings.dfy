// The parts of .NET's System.String that the speech analyzer relies on:
// char.IsWhiteSpace, string.IsNullOrWhiteSpace, Trim, and Split with
// string separators.

module Optional {
  datatype Option<+T> = None | Some(value: T) {
    /** The value held, or the given default for None. */
    function GetOr(default: T): T {
      match this
      case Some(v) => v
      case None => default
    }
  }
}

module Strings {
  import opened Optional

  /** char.IsWhiteSpace: the Unicode space, line and paragraph separators,
      the control characters U+0009..U+000D, and U+0085. */
  predicate IsWhiteSpace(c: char) {
    ('\t' <= c <= '\r') || c == ' ' || c == '\U{0085}' || c == '\U{00A0}'
    || c == '\U{1680}' || ('\U{2000}' <= c <= '\U{200A}') || c == '\U{2028}'
    || c == '\U{2029}' || c == '\U{202F}' || c == '\U{205F}' || c == '\U{3000}'
  }

  /** string.IsNullOrWhiteSpace on a string that is not null: every character
      is white space (so the empty string qualifies). */
  predicate IsNullOrWhiteSpace(s: string) {
    forall i :: 0 <= i < |s| ==> IsWhiteSpace(s[i])
  }

  /** Drops the leading white space. */
  function TrimStart(s: string): string {
    if s != [] && IsWhiteSpace(s[0]) then TrimStart(s[1..]) else s
  }

  /** Drops the trailing white space. */
  function TrimEnd(s: string): string {
    if s != [] && IsWhiteSpace(s[|s| - 1]) then TrimEnd(s[..|s| - 1]) else s
  }

  lemma {:induction false} TrimStartFacts(s: string)
    ensures |TrimStart(s)| <= |s| && TrimStart(s) == s[|s| - |TrimStart(s)|..]
    ensures forall i :: 0 <= i < |s| - |TrimStart(s)| ==> IsWhiteSpace(s[i])
    ensures TrimStart(s) == [] || !IsWhiteSpace(TrimStart(s)[0])
    decreases |s|
  {
    if s != [] && IsWhiteSpace(s[0]) {
      TrimStartFacts(s[1..]);
    }
  }

  lemma {:induction false} TrimEndFacts(s: string)
    ensures |TrimEnd(s)| <= |s| && TrimEnd(s) == s[..|TrimEnd(s)|]
    ensures forall i :: |TrimEnd(s)| <= i < |s| ==> IsWhiteSpace(s[i])
    ensures TrimEnd(s) == [] || !IsWhiteSpace(TrimEnd(s)[|TrimEnd(s)| - 1])
    decreases |s|
  {
    if s != [] && IsWhiteSpace(s[|s| - 1]) {
      TrimEndFacts(s[..|s| - 1]);
    }
  }

  /** string.Trim() */
  function Trim(s: string): string {
    TrimEnd(TrimStart(s))
  }

  /** Trim drops white space only, and all of it on both sides: what is left
      neither starts nor ends with white space, and is empty exactly for a
      blank string. */
  lemma TrimSpec(s: string)
    ensures exists pre, post :: s == pre + Trim(s) + post
                                && IsNullOrWhiteSpace(pre) && IsNullOrWhiteSpace(post)
    ensures Trim(s) == [] || (!IsWhiteSpace(Trim(s)[0]) && !IsWhiteSpace(Trim(s)[|Trim(s)| - 1]))
    ensures Trim(s) == [] <==> IsNullOrWhiteSpace(s)
  {
    var pre, post := TrimParts(s);
    TrimHead(s);
    TrimEmpty(s);
    TrimEndFacts(TrimStart(s));
  }

  /** The white space that Trim drops before and after what it keeps. */
  lemma TrimParts(s: string) returns (pre: string, post: string)
    ensures s == pre + Trim(s) + post && IsNullOrWhiteSpace(pre) && IsNullOrWhiteSpace(post)
  {
    var t := TrimStart(s);
    TrimStartFacts(s);
    TrimEndFacts(t);
    var k := |s| - |t|;
    var m := k + |TrimEnd(t)|;
    assert TrimEnd(t) == s[k..m] by {
      assert t == s[k..];
      assert s[k..][..m - k] == s[k..m];
    }
    WhiteSlice(s, 0, k);
    WhiteSlice(s, m, |s|) by {
      forall i | m <= i < |s| ensures IsWhiteSpace(s[i]) {
        assert s[i] == t[i - k];
      }
    }
    pre, post := s[0..k], s[m..|s|];
    ThreeSlices(s, k, m);
  }

  lemma ThreeSlices(s: string, i: nat, j: nat)
    requires i <= j <= |s|
    ensures s == s[0..i] + s[i..j] + s[j..|s|]
  {
  }

  lemma WhiteSlice(s: string, lo: nat, hi: nat)
    requires lo <= hi <= |s| && forall i :: lo <= i < hi ==> IsWhiteSpace(s[i])
    ensures IsNullOrWhiteSpace(s[lo..hi])
  {
    forall i | 0 <= i < hi - lo ensures IsWhiteSpace(s[lo..hi][i]) {
      assert s[lo..hi][i] == s[lo + i];
    }
  }

  lemma TrimHead(s: string)
    ensures TrimEnd(TrimStart(s)) == [] || !IsWhiteSpace(TrimEnd(TrimStart(s))[0])
  {
    var t := TrimStart(s);
    var r := TrimEnd(t);
    TrimStartFacts(s);
    TrimEndFacts(t);
    if r != [] {
      assert r[0] == t[0];
    }
  }

  lemma TrimEmpty(s: string)
    ensures TrimEnd(TrimStart(s)) == [] <==> IsNullOrWhiteSpace(s)
  {
    var t := TrimStart(s);
    var r := TrimEnd(t);
    TrimStartFacts(s);
    TrimEndFacts(t);
    var k := |s| - |t|;
    if r == [] {
      assert t == [];
    } else {
      assert r[0] == t[0] == s[k];
    }
  }

  /** Leading white space makes no difference to TrimStart. */
  lemma {:induction false} TrimStartSkips(pre: string, x: string)
    requires IsNullOrWhiteSpace(pre)
    ensures TrimStart(pre + x) == TrimStart(x)
    decreases |pre|
  {
    if pre == [] {
      assert pre + x == x;
    } else {
      assert (pre + x)[1..] == pre[1..] + x;
      TrimStartSkips(pre[1..], x);
    }
  }

  /** Trailing white space makes no difference to TrimEnd. */
  lemma {:induction false} TrimEndSkips(x: string, post: string)
    requires IsNullOrWhiteSpace(post)
    ensures TrimEnd(x + post) == TrimEnd(x)
    decreases |post|
  {
    if post == [] {
      assert x + post == x;
    } else {
      var post' := post[..|post| - 1];
      assert (x + post)[..|x + post| - 1] == x + post';
      TrimEndSkips(x, post');
    }
  }

  /** The converse of TrimSpec: a core framed by white space, which neither
      starts nor ends with white space itself, is what Trim returns. */
  lemma TrimExact(pre: string, core: string, post: string)
    requires IsNullOrWhiteSpace(pre) && IsNullOrWhiteSpace(post)
    requires core == [] || (!IsWhiteSpace(core[0]) && !IsWhiteSpace(core[|core| - 1]))
    ensures Trim(pre + core + post) == core
  {
    assert pre + core + post == pre + (core + post);
    TrimStartSkips(pre, core + post);
    if core == [] {
      assert core + post == post + [];
      TrimStartSkips(post, []);
    } else {
      assert (core + post)[0] == core[0];
      TrimEndSkips(core, post);
    }
  }

  /** Trimming twice is trimming once. */
  lemma TrimIdempotent(s: string)
    ensures Trim(Trim(s)) == Trim(s)
  {
    TrimSpec(s);
    var t := Trim(s);
    assert [] + t + [] == t;
    TrimExact([], t, []);
  }

  /** Trailing white space added to a string is trimmed away with the rest. */
  lemma TrimDropsTrailing(s: string, w: string)
    requires IsNullOrWhiteSpace(w)
    ensures Trim(s + w) == Trim(s)
  {
    TrimSpec(s);
    var pre, post := TrimParts(s);
    assert s + w == pre + Trim(s) + (post + w);
    TrimExact(pre, Trim(s), post + w);
  }

  /** A separator matches at the head of s when it is non-empty and a prefix
      of s (.NET skips empty separators). */
  predicate StartsWith(s: string, sep: string) {
    0 < |sep| && sep <= s
  }

  /** p occurs in s as a factor. */
  predicate Occurs(p: string, s: string) {
    exists i :: 0 <= i <= |s| && StartsWith(s[i..], p)
  }

  /** The index of the first separator, in array order, that matches at the
      head of s. */
  function FirstMatch(s: string, seps: seq<string>): (k: Option<nat>)
    ensures k.Some? ==> k.value < |seps| && StartsWith(s, seps[k.value])
                        && forall j :: 0 <= j < k.value ==> !StartsWith(s, seps[j])
    ensures k.None? <==> forall j :: 0 <= j < |seps| ==> !StartsWith(s, seps[j])
  {
    if seps == [] then None
    else if StartsWith(s, seps[0]) then Some(0)
    else match FirstMatch(s, seps[1..])
      case None => None
      case Some(k) => Some(k + 1)
  }

  /** The separators that s.Split(seps, StringSplitOptions.None) cuts at,
      in order: the scan goes left to right, tries the separators in array
      order at each position, and resumes after the separator it took. */
  function Separators(s: string, seps: seq<string>): (cut: seq<string>)
    decreases |s|
  {
    if s == [] then []
    else match FirstMatch(s, seps)
      case Some(k) => [seps[k]] + Separators(s[|seps[k]|..], seps)
      case None => Separators(s[1..], seps)
  }

  /** s.Split(seps, StringSplitOptions.None): the pieces between the cuts,
      empty pieces included. */
  function Split(s: string, seps: seq<string>): (parts: seq<string>)
    ensures |parts| == |Separators(s, seps)| + 1
    ensures parts[0] <= s
    decreases |s|
  {
    if s == [] then [[]]
    else match FirstMatch(s, seps)
      case Some(k) => [[]] + Split(s[|seps[k]|..], seps)
      case None =>
        var rest := Split(s[1..], seps);
        [[s[0]] + rest[0]] + rest[1..]
  }

  /** parts[0] + cuts[0] + parts[1] + ... + cuts[n-1] + parts[n]. */
  function Interleave(parts: seq<string>, cuts: seq<string>): string
    requires |parts| == |cuts| + 1
    decreases |cuts|
  {
    if cuts == [] then parts[0] else parts[0] + cuts[0] + Interleave(parts[1..], cuts[1..])
  }

  /** Split loses nothing: putting the separators back between the pieces
      gives the original string. */
  lemma {:induction false} SplitRoundTrip(s: string, seps: seq<string>)
    ensures Interleave(Split(s, seps), Separators(s, seps)) == s
    decreases |s|
  {
    if s != [] {
      match FirstMatch(s, seps)
      case Some(k) =>
        var sep := seps[k];
        var tail := s[|sep|..];
        var parts := Split(tail, seps);
        var cuts := Separators(tail, seps);
        var p := [[]] + parts;
        var c := [sep] + cuts;
        assert Split(s, seps) == p;
        assert Separators(s, seps) == c;
        SplitRoundTrip(tail, seps);
        assert p[0] == [] && c[0] == sep && p[1..] == parts && c[1..] == cuts;
        assert Interleave(p, c) == p[0] + c[0] + Interleave(p[1..], c[1..]);
        assert p[0] + c[0] == sep;
        assert s == sep + tail;
      case None =>
        var rest := Split(s[1..], seps);
        var cuts := Separators(s[1..], seps);
        assert Split(s, seps) == [[s[0]] + rest[0]] + rest[1..];
        assert Separators(s, seps) == cuts;
        SplitRoundTrip(s[1..], seps);
        InterleaveCons(s[0], rest, cuts);
        assert s == [s[0]] + s[1..];
        assert Interleave(Split(s, seps), Separators(s, seps)) == s;
    }
  }

  lemma InterleaveCons(c: char, parts: seq<string>, cuts: seq<string>)
    requires |parts| == |cuts| + 1
    ensures Interleave([[c] + parts[0]] + parts[1..], cuts) == [c] + Interleave(parts, cuts)
  {
    var p := [[c] + parts[0]] + parts[1..];
    assert p[1..] == parts[1..];
  }

  /** No piece of a split contains a separator. */
  lemma {:induction false} SplitPiecesFree(s: string, seps: seq<string>)
    ensures forall n, j :: 0 <= n < |Split(s, seps)| && 0 <= j < |seps|
                           ==> !Occurs(seps[j], Split(s, seps)[n])
    decreases |s|
  {
    if s == [] {
      EmptyPieceFree(seps);
      PiecesFreeCons([], [], seps);
    } else {
      match FirstMatch(s, seps)
      case Some(k) =>
        var tail := s[|seps[k]|..];
        SplitPiecesFree(tail, seps);
        EmptyPieceFree(seps);
        PiecesFreeCons([], Split(tail, seps), seps);
      case None =>
        var rest := Split(s[1..], seps);
        SplitPiecesFree(s[1..], seps);
        HeadPieceFree(s, seps, rest[0]);
        PiecesFreeCons([s[0]] + rest[0], rest[1..], seps);
    }
  }

  lemma EmptyPieceFree(seps: seq<string>)
    ensures forall j :: 0 <= j < |seps| ==> !Occurs(seps[j], [])
  {
    var e: string := [];
    forall j | 0 <= j < |seps| ensures !Occurs(seps[j], e) {
      assert e[0..] == e;
    }
  }

  lemma PiecesFreeCons(head: string, rest: seq<string>, seps: seq<string>)
    requires forall j :: 0 <= j < |seps| ==> !Occurs(seps[j], head)
    requires forall n, j :: 0 <= n < |rest| && 0 <= j < |seps| ==> !Occurs(seps[j], rest[n])
    ensures forall n, j :: 0 <= n < |[head] + rest| && 0 <= j < |seps| ==> !Occurs(seps[j], ([head] + rest)[n])
  {
    forall n, j | 0 <= n < |[head] + rest| && 0 <= j < |seps| ensures !Occurs(seps[j], ([head] + rest)[n]) {
      if n > 0 {
        assert ([head] + rest)[n] == rest[n - 1];
      }
    }
  }

  /** The first piece, when no separator matches at the head of s: its first
      character followed by a separator-free prefix of the rest of s. */
  lemma HeadPieceFree(s: string, seps: seq<string>, r: string)
    requires s != [] && r <= s[1..]
    requires forall j :: 0 <= j < |seps| ==> !StartsWith(s, seps[j])
    requires forall j :: 0 <= j < |seps| ==> !Occurs(seps[j], r)
    ensures forall j :: 0 <= j < |seps| ==> !Occurs(seps[j], [s[0]] + r)
  {
    var head := [s[0]] + r;
    assert head <= s by {
      assert s == [s[0]] + s[1..];
    }
    forall j, i | 0 <= j < |seps| && 0 <= i <= |head| ensures !StartsWith(head[i..], seps[j]) {
      if i == 0 {
        assert head[0..] == head;
        if seps[j] <= head {
          PrefixTransitive(seps[j], head, s);
        }
      } else {
        assert head[i..] == r[i - 1..];
      }
    }
  }

  /** Split cuts nowhere exactly when no separator occurs in s. */
  lemma {:induction false} NoCutIffAbsent(s: string, seps: seq<string>)
    ensures Separators(s, seps) == []
            <==> forall j :: 0 <= j < |seps| ==> !Occurs(seps[j], s)
    decreases |s|
  {
    if s == [] {
      forall j, i | 0 <= j < |seps| && 0 <= i <= |s| ensures !StartsWith(s[i..], seps[j]) {
        assert s[i..] == [];
      }
    } else {
      match FirstMatch(s, seps)
      case Some(k) =>
        assert s[0..] == s;
        assert Occurs(seps[k], s);
      case None =>
        NoCutIffAbsent(s[1..], seps);
        forall j | 0 <= j < |seps| ensures Occurs(seps[j], s[1..]) ==> Occurs(seps[j], s) {
          if Occurs(seps[j], s[1..]) {
            var i :| 0 <= i <= |s[1..]| && StartsWith(s[1..][i..], seps[j]);
            assert s[1..][i..] == s[i + 1..];
          }
        }
        forall j | 0 <= j < |seps| ensures Occurs(seps[j], s) ==> Occurs(seps[j], s[1..]) {
          if Occurs(seps[j], s) {
            assert s[0..] == s;
            var i :| 0 <= i <= |s| && StartsWith(s[i..], seps[j]);
            assert s[1..][i - 1..] == s[i..];
          }
        }
    }
  }

  /** A pattern with a character that s lacks does not occur in s. */
  lemma AbsentCharNotOccurs(p: string, s: string, k: nat)
    requires k < |p| && p[k] !in s
    ensures !Occurs(p, s)
  {
    forall i | 0 <= i <= |s| ensures !StartsWith(s[i..], p) {
      if i + k < |s| {
        assert s[i..][k] == s[i + k];
      }
    }
  }

  lemma PrefixTransitive(a: string, b: string, c: string)
    requires a <= b && b <= c
    ensures a <= c
  {
    assert a == b[..|a|] && b == c[..|b|];
    assert c[..|b|][..|a|] == c[..|a|];
  }

  /** Splitting on a character: the piece before its first occurrence comes
      first, and the rest is split in turn. */
  lemma {:induction false} SplitAtFirst(a: string, c: char, b: string)
    requires c !in a
    ensures Split(a + [c] + b, [[c]]) == [a] + Split(b, [[c]])
    decreases |a|
  {
    var s := a + [c] + b;
    if a == [] {
      assert s == [c] + b;
      assert StartsWith(s, [c]);
      assert s[1..] == b;
    } else {
      assert s[0] == a[0] && a[0] != c;
      assert !StartsWith(s, [c]);
      assert s[1..] == a[1..] + [c] + b;
      SplitAtFirst(a[1..], c, b);
      assert [a[0]] + a[1..] == a;
    }
  }

  /** A string without the separator character is one piece. */
  lemma {:induction false} SplitWithout(a: string, c: char)
    requires c !in a
    ensures Split(a, [[c]]) == [a]
    decreases |a|
  {
    if a != [] {
      assert a[0] in a;
      assert !StartsWith(a, [c]);
      SplitWithout(a[1..], c);
      assert [a[0]] + a[1..] == a;
    }
  }

  /** Every cut consumes |p| characters, so at most |s| / |p| of them fit. */
  lemma {:induction false} SingleSeparatorBound(s: string, p: string)
    ensures |Separators(s, [p])| * |p| <= |s|
    decreases |s|
  {
    if s != [] {
      match FirstMatch(s, [p])
      case Some(k) =>
        assert [p][k] == p;
        var c := |Separators(s[|p|..], [p])|;
        assert |Separators(s, [p])| == 1 + c;
        SingleSeparatorBound(s[|p|..], p);
        MulSucc(c, |p|);
      case None =>
        assert Separators(s, [p]) == Separators(s[1..], [p]);
        SingleSeparatorBound(s[1..], p);
    }
  }

  lemma MulSucc(c: nat, m: nat)
    ensures (1 + c) * m == m + c * m
  {
  }

  /** Each cut consumes at least one character. */
  lemma {:induction false} SeparatorsBound(s: string, seps: seq<string>)
    ensures |Separators(s, seps)| <= |s|
    decreases |s|
  {
    if s != [] {
      match FirstMatch(s, seps)
      case Some(k) => SeparatorsBound(s[|seps[k]|..], seps);
      case None => SeparatorsBound(s[1..], seps);
    }
  }

  /** Splitting on a single character cuts once per occurrence of it. */
  lemma {:induction false} CharSeparatorCount(s: string, c: char)
    ensures |Separators(s, [[c]])| == multiset(s)[c]
    decreases |s|
  {
    if s != [] {
      assert s == [s[0]] + s[1..];
      assert multiset(s) == multiset([s[0]]) + multiset(s[1..]);
      CharSeparatorCount(s[1..], c);
      if s[0] == c {
        assert StartsWith(s, [c]);
      } else {
        assert !StartsWith(s, [c]);
      }
    }
  }
}

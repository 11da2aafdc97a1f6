/**
 * The handful of Python `str` operations the scripts rely on: `lower()`
 * (ASCII letters only), `isspace()`, `strip()`, `split()` without an
 * argument (first token only), `split(sep)`, `sep.join`, `replace`,
 * `startswith` and the substring test `sub in s`.
 */
module Text {
  import opened Common

  /** Python's `str.isspace()` for a single character. */
  predicate IsSpace(c: char) {
    var n := c as int;
    n == 0x20 || 0x09 <= n <= 0x0D || 0x1C <= n <= 0x1F || n == 0x85 || n == 0xA0
    || n == 0x1680 || 0x2000 <= n <= 0x200A || n == 0x2028 || n == 0x2029
    || n == 0x202F || n == 0x205F || n == 0x3000
  }

  predicate NoSpace(s: string) {
    forall i :: 0 <= i < |s| ==> !IsSpace(s[i])
  }

  predicate AllSpace(s: string) {
    forall i :: 0 <= i < |s| ==> IsSpace(s[i])
  }

  /** `c.lower()` restricted to ASCII: only 'A'..'Z' change. */
  function LowerChar(c: char): char {
    if 'A' <= c <= 'Z' then (c as int + 32) as char else c
  }

  /** `s.lower()`: every character lowered, nothing else changes. */
  function Lower(s: string): (r: string)
    ensures |r| == |s|
    ensures forall i :: 0 <= i < |s| ==> r[i] == LowerChar(s[i])
  {
    if s == [] then [] else [LowerChar(s[0])] + Lower(s[1..])
  }

  /** `a.lower() == b.lower()`. */
  predicate EqualsIgnoreCase(a: string, b: string) {
    Lower(a) == Lower(b)
  }

  lemma LowerIdempotent(s: string)
    ensures Lower(Lower(s)) == Lower(s)
  {
  }

  /** Lowering a name first never changes a case-insensitive comparison. */
  lemma EqualsIgnoreCaseOfLower(a: string, b: string)
    ensures EqualsIgnoreCase(Lower(a), b) == EqualsIgnoreCase(a, b)
  {
    LowerIdempotent(a);
  }

  /** `s.startswith(p)`. */
  predicate StartsWith(s: string, p: string) {
    |p| <= |s| && s[..|p|] == p
  }

  /** `s.lstrip()`: drops the leading whitespace. */
  function TrimLeft(s: string): (r: string)
    ensures |r| <= |s|
  {
    if s != [] && IsSpace(s[0]) then TrimLeft(s[1..]) else s
  }

  /** What `lstrip()` drops is whitespace, and what it keeps starts with none. */
  lemma {:induction false} TrimLeftShape(s: string)
    ensures TrimLeft(s) == s[|s| - |TrimLeft(s)|..]
    ensures AllSpace(s[..|s| - |TrimLeft(s)|])
    ensures TrimLeft(s) != [] ==> !IsSpace(TrimLeft(s)[0])
    decreases |s|
  {
    if s != [] && IsSpace(s[0]) {
      TrimLeftShape(s[1..]);
      var n := |s| - |TrimLeft(s)|;
      assert s[..n] == [s[0]] + s[1..][..n - 1];
    }
  }

  /** `s.rstrip()`: drops the trailing whitespace. */
  function TrimRight(s: string): (r: string)
    ensures |r| <= |s|
  {
    if s != [] && IsSpace(s[|s| - 1]) then TrimRight(s[..|s| - 1]) else s
  }

  /** What `rstrip()` drops is whitespace, and what it keeps ends with none. */
  lemma {:induction false} TrimRightShape(s: string)
    ensures TrimRight(s) == s[..|TrimRight(s)|]
    ensures AllSpace(s[|TrimRight(s)|..])
    ensures TrimRight(s) != [] ==> !IsSpace(TrimRight(s)[|TrimRight(s)| - 1])
    decreases |s|
  {
    if s != [] && IsSpace(s[|s| - 1]) {
      TrimRightShape(s[..|s| - 1]);
      var n := |TrimRight(s)|;
      assert s[n..] == s[..|s| - 1][n..] + [s[|s| - 1]];
    }
  }

  /** `s.strip()`. */
  function Strip(s: string): string {
    TrimRight(TrimLeft(s))
  }

  /** What `strip()` returns is a piece of its input bordered only by whitespace. */
  lemma StripShape(s: string)
    ensures var r := Strip(s);
      exists i :: 0 <= i <= i + |r| <= |s| && r == s[i..i + |r|]
        && AllSpace(s[..i]) && AllSpace(s[i + |r|..])
    ensures Strip(s) != [] ==> !IsSpace(Strip(s)[0]) && !IsSpace(Strip(s)[|Strip(s)| - 1])
  {
    var l := TrimLeft(s);
    var r := TrimRight(l);
    TrimLeftShape(s);
    TrimRightShape(l);
    BorderedPiece(s, l, r);
    if r != [] {
      assert r[0] == l[0];
    }
  }

  /** A prefix of a suffix, each cut off by whitespace, is bordered by it. */
  lemma BorderedPiece(s: string, l: string, r: string)
    requires |l| <= |s| && l == s[|s| - |l|..] && AllSpace(s[..|s| - |l|])
    requires |r| <= |l| && r == l[..|r|] && AllSpace(l[|r|..])
    ensures var i := |s| - |l|;
      r == s[i..i + |r|] && AllSpace(s[..i]) && AllSpace(s[i + |r|..])
  {
    var i := |s| - |l|;
    assert s[i..][..|r|] == s[i..i + |r|];
    assert s[i..][|r|..] == s[i + |r|..];
  }

  /** A string with no whitespace at either end is left alone by `strip()`. */
  lemma StripUnchanged(s: string)
    requires s == [] || (!IsSpace(s[0]) && !IsSpace(s[|s| - 1]))
    ensures Strip(s) == s
  {
    assert TrimLeft(s) == s;
  }

  lemma StripIdempotent(s: string)
    ensures Strip(Strip(s)) == Strip(s)
  {
    StripShape(s);
    StripUnchanged(Strip(s));
  }

  /** The longest prefix of `s` without whitespace. */
  function TakeToken(s: string): (r: string)
    ensures |r| <= |s|
  {
    if s == [] || IsSpace(s[0]) then [] else [s[0]] + TakeToken(s[1..])
  }

  /** The token is a whitespace-free prefix ended by whitespace or by the end. */
  lemma {:induction false} TakeTokenShape(s: string)
    ensures TakeToken(s) == s[..|TakeToken(s)|]
    ensures NoSpace(TakeToken(s))
    ensures |TakeToken(s)| < |s| ==> IsSpace(s[|TakeToken(s)|])
    decreases |s|
  {
    if s != [] && !IsSpace(s[0]) {
      TakeTokenShape(s[1..]);
    }
  }

  /** `s.split()[0]`: None where Python raises IndexError (a blank string). */
  function FirstToken(s: string): (r: Option<string>)
    ensures r.None? <==> AllSpace(s)
    ensures r.Some? ==> r.value != [] && NoSpace(r.value)
  {
    TrimLeftShape(s);
    var t := TrimLeft(s);
    if t == [] then None
    else
      TakeTokenShape(t);
      Some(TakeToken(t))
  }

  /** The first token is a whitespace-bounded piece of the input after leading blanks. */
  lemma FirstTokenShape(s: string)
    requires FirstToken(s).Some?
    ensures var g := FirstToken(s).value;
      exists i :: 0 <= i <= i + |g| <= |s| && AllSpace(s[..i]) && s[i..i + |g|] == g
        && (i + |g| == |s| || IsSpace(s[i + |g|]))
  {
    var t := TrimLeft(s);
    var g := TakeToken(t);
    var i := |s| - |t|;
    TrimLeftShape(s);
    TakeTokenShape(t);
    assert s[i..i + |g|] == g;
    if i + |g| < |s| {
      assert s[i + |g|] == t[|g|];
    }
  }

  /** Lowering a string commutes with dropping its leading whitespace. */
  lemma {:induction false} TrimLeftLower(s: string)
    ensures TrimLeft(Lower(s)) == Lower(TrimLeft(s))
    decreases |s|
  {
    if s != [] {
      var l := Lower(s);
      assert l[0] == LowerChar(s[0]);
      assert IsSpace(l[0]) == IsSpace(s[0]);
      if IsSpace(s[0]) {
        assert l[1..] == Lower(s[1..]);
        TrimLeftLower(s[1..]);
      }
    }
  }

  /** Lowering a string commutes with taking its leading token. */
  lemma {:induction false} TakeTokenLower(s: string)
    ensures TakeToken(Lower(s)) == Lower(TakeToken(s))
    decreases |s|
  {
    if s != [] && !IsSpace(s[0]) {
      assert Lower(s)[1..] == Lower(s[1..]);
      TakeTokenLower(s[1..]);
      assert Lower([s[0]] + TakeToken(s[1..]))[1..] == Lower(TakeToken(s[1..]));
    }
  }

  /** The first token of the lowered string is the lowered first token. */
  lemma FirstTokenLower(s: string)
    ensures FirstToken(Lower(s)).None? == FirstToken(s).None?
    ensures FirstToken(s).Some? ==> FirstToken(Lower(s)).value == Lower(FirstToken(s).value)
  {
    TrimLeftLower(s);
    TakeTokenLower(TrimLeft(s));
  }

  /** `pat` occurs in `s` starting at index `i`. */
  predicate OccursAt(s: string, pat: string, i: nat) {
    i + |pat| <= |s| && s[i..i + |pat|] == pat
  }

  predicate NoOccurrence(s: string, pat: string) {
    forall j :: 0 <= j <= |s| ==> !OccursAt(s, pat, j)
  }

  /** `s.find(pat, from)`, as an Option: the leftmost occurrence at or after `from`. */
  function FindFrom(s: string, pat: string, from: nat): (r: Option<nat>)
    requires from <= |s|
    decreases |s| - from
    ensures r.Some? ==> from <= r.value && r.value + |pat| <= |s|
  {
    if OccursAt(s, pat, from) then Some(from)
    else if from == |s| then None
    else FindFrom(s, pat, from + 1)
  }

  /** What `find` returns is an occurrence with none before it, and `None`
      means there is none at all from `from` on. */
  lemma {:induction false} FindFromSpec(s: string, pat: string, from: nat)
    requires from <= |s|
    ensures FindFrom(s, pat, from).Some? ==> OccursAt(s, pat, FindFrom(s, pat, from).value)
    ensures FindFrom(s, pat, from).Some? ==>
      forall j :: from <= j < FindFrom(s, pat, from).value ==> !OccursAt(s, pat, j)
    ensures FindFrom(s, pat, from).None? ==> forall j: nat :: from <= j ==> !OccursAt(s, pat, j)
    decreases |s| - from
  {
    if !OccursAt(s, pat, from) && from < |s| {
      FindFromSpec(s, pat, from + 1);
    }
  }

  /** `pat in s`. */
  predicate Contains(s: string, pat: string) {
    FindFrom(s, pat, 0).Some?
  }

  lemma ContainsIff(s: string, pat: string)
    ensures Contains(s, pat) <==> !NoOccurrence(s, pat)
  {
    FindFromSpec(s, pat, 0);
  }

  /** `s.split(sep)` for a non-empty separator: leftmost, non-overlapping cuts. */
  function SplitOn(s: string, sep: string): (parts: seq<string>)
    requires sep != []
    ensures |parts| >= 1
    decreases |s|
  {
    match FindFrom(s, sep, 0)
    case None => [s]
    case Some(i) => [s[..i]] + SplitOn(s[i + |sep|..], sep)
  }

  /** `sep.join(parts)`. */
  function Join(parts: seq<string>, sep: string): string {
    if parts == [] then []
    else if |parts| == 1 then parts[0]
    else parts[0] + sep + Join(parts[1..], sep)
  }

  /** Splitting and joining back with the same separator gives the original string. */
  lemma {:induction false} JoinSplitOn(s: string, sep: string)
    requires sep != []
    ensures Join(SplitOn(s, sep), sep) == s
    decreases |s|
  {
    var f := FindFrom(s, sep, 0);
    if f.Some? {
      var i := f.value;
      JoinSplitOn(s[i + |sep|..], sep);
      JoinSplitOnStep(s, sep, i);
    }
  }

  /** One cut of `JoinSplitOn`: the first piece, the separator and the rest. */
  lemma JoinSplitOnStep(s: string, sep: string, i: nat)
    requires sep != []
    requires FindFrom(s, sep, 0) == Some(i)
    requires Join(SplitOn(s[i + |sep|..], sep), sep) == s[i + |sep|..]
    ensures Join(SplitOn(s, sep), sep) == s
  {
    var rest := s[i + |sep|..];
    var tail := SplitOn(rest, sep);
    FindFromSpec(s, sep, 0);
    JoinCons(s[..i], tail, sep);
    assert SplitOn(s, sep) == [s[..i]] + tail;
    Recompose(s, i, |sep|);
  }

  lemma Recompose(s: string, i: nat, n: nat)
    requires i + n <= |s|
    ensures s[..i] + s[i..i + n] + s[i + n..] == s
  {
  }

  lemma JoinCons(head: string, tail: seq<string>, sep: string)
    requires tail != []
    ensures Join([head] + tail, sep) == head + sep + Join(tail, sep)
  {
    assert ([head] + tail)[1..] == tail;
  }

  /** No piece produced by `split(sep)` contains the separator. */
  lemma {:induction false} SplitOnPiecesAvoidSeparator(s: string, sep: string)
    requires sep != []
    ensures forall k :: 0 <= k < |SplitOn(s, sep)| ==> NoOccurrence(SplitOn(s, sep)[k], sep)
    decreases |s|
  {
    FindFromSpec(s, sep, 0);
    match FindFrom(s, sep, 0)
    case None =>
    case Some(i) =>
      var rest := s[i + |sep|..];
      SplitOnPiecesAvoidSeparator(rest, sep);
      var head := s[..i];
      forall j: nat | OccursAt(head, sep, j)
        ensures false
      {
        assert s[j..j + |sep|] == head[j..j + |sep|];
        assert OccursAt(s, sep, j);
      }
  }

  /** `s.split(sep)[-1]`: what follows the last cut `split` makes. */
  function LastPiece(s: string, sep: string): string
    requires sep != []
    decreases |s|
  {
    match FindFrom(s, sep, 0)
    case None => s
    case Some(i) => LastPiece(s[i + |sep|..], sep)
  }

  /** `LastPiece` is indeed the last element of `split(sep)`. */
  lemma {:induction false} LastPieceIsLastOfSplit(s: string, sep: string)
    requires sep != []
    ensures LastPiece(s, sep) == SplitOn(s, sep)[|SplitOn(s, sep)| - 1]
    decreases |s|
  {
    match FindFrom(s, sep, 0)
    case None =>
    case Some(i) =>
      var tail := SplitOn(s[i + |sep|..], sep);
      LastPieceIsLastOfSplit(s[i + |sep|..], sep);
      assert SplitOn(s, sep) == [s[..i]] + tail;
  }

  /** The last piece of `split(sep)`: a suffix of `s` holding no `sep`, the
      whole of `s` when there is no cut, and preceded by `sep` when there is. */
  lemma SplitOnLast(s: string, sep: string)
    requires sep != []
    ensures |LastPiece(s, sep)| <= |s|
    ensures LastPiece(s, sep) == s[|s| - |LastPiece(s, sep)|..]
    ensures NoOccurrence(LastPiece(s, sep), sep)
    ensures !Contains(s, sep) ==> LastPiece(s, sep) == s
    ensures Contains(s, sep) ==>
      |LastPiece(s, sep)| + |sep| <= |s| && OccursAt(s, sep, |s| - |LastPiece(s, sep)| - |sep|)
  {
    LastPieceIsSuffix(s, sep, |s| - |LastPiece(s, sep)|);
    LastPieceAvoidsSeparator(s, sep);
    if Contains(s, sep) {
      LastPieceFollowsCut(s, sep, |s| - |LastPiece(s, sep)| - |sep|);
    }
  }

  lemma {:induction false} LastPieceIsSuffix(s: string, sep: string, p: int)
    requires sep != []
    requires p == |s| - |LastPiece(s, sep)|
    ensures 0 <= p && LastPiece(s, sep) == s[p..]
    decreases |s|
  {
    if Contains(s, sep) {
      var i := FindFrom(s, sep, 0).value;
      FindFromOccurs(s, sep, 0);
      var k := i + |sep|;
      var rest := s[k..];
      assert LastPiece(s, sep) == LastPiece(rest, sep);
      LastPieceIsSuffix(rest, sep, p - k);
      SuffixAt(s, k, p);
    }
  }

  lemma {:induction false} LastPieceAvoidsSeparator(s: string, sep: string)
    requires sep != []
    ensures NoOccurrence(LastPiece(s, sep), sep)
    decreases |s|
  {
    FindFromSpec(s, sep, 0);
    match FindFrom(s, sep, 0)
    case None =>
    case Some(i) =>
      LastPieceAvoidsSeparator(s[i + |sep|..], sep);
  }

  lemma {:induction false} LastPieceFollowsCut(s: string, sep: string, p: int)
    requires sep != [] && Contains(s, sep)
    requires p == |s| - |LastPiece(s, sep)| - |sep|
    ensures 0 <= p && OccursAt(s, sep, p)
    decreases |s|
  {
    var i := FindFrom(s, sep, 0).value;
    FindFromOccurs(s, sep, 0);
    var k := i + |sep|;
    var rest := s[k..];
    assert |LastPiece(s, sep)| == |LastPiece(rest, sep)|;
    if Contains(rest, sep) {
      LastPieceFollowsCut(rest, sep, p - k);
      OccursInSuffixAt(s, sep, k, p);
    } else {
      assert LastPiece(rest, sep) == rest;
    }
  }

  /** What `FindFrom` finds is an occurrence. */
  lemma FindFromOccurs(s: string, pat: string, from: nat)
    requires from <= |s| && FindFrom(s, pat, from).Some?
    ensures OccursAt(s, pat, FindFrom(s, pat, from).value)
  {
    FindFromSpec(s, pat, from);
  }

  /** An occurrence in a suffix is an occurrence in the whole, shifted. */
  lemma OccursInSuffix(s: string, pat: string, k: nat, j: nat)
    requires k <= |s|
    ensures OccursAt(s[k..], pat, j) <==> OccursAt(s, pat, k + j)
  {
    if k + j + |pat| <= |s| {
      SliceOfSuffix(s, k, j, |pat|);
    }
  }

  /** `OccursInSuffix`, by the position in `s`. */
  lemma OccursInSuffixAt(s: string, pat: string, k: nat, i: nat)
    requires k <= |s| && k <= i
    ensures OccursAt(s[k..], pat, i - k) <==> OccursAt(s, pat, i)
  {
    OccursInSuffix(s, pat, k, i - k);
  }

  /** A suffix of a suffix, by where it starts in the whole. */
  lemma SuffixAt(s: string, k: nat, p: nat)
    requires k <= p <= |s|
    ensures s[k..][p - k..] == s[p..]
  {
  }

  /** A slice of a suffix is a slice of the whole. */
  lemma SliceOfSuffix(s: string, k: nat, j: nat, n: nat)
    requires k + j + n <= |s|
    ensures s[k..][j..j + n] == s[k + j..k + j + n]
  {
  }

  /** The first occurrence at or after `from` is the one found. */
  lemma {:induction false} FindFromAt(s: string, pat: string, from: nat, i: nat)
    requires from <= i && OccursAt(s, pat, i)
    requires forall j :: from <= j < i ==> !OccursAt(s, pat, j)
    ensures FindFrom(s, pat, from) == Some(i)
    decreases i - from
  {
    if from < i {
      FindFromAt(s, pat, from + 1, i);
    }
  }

  /** When the first occurrence of `sep` in `a + sep` is the final one, `split`
      cuts exactly there. */
  lemma SplitAtFirst(a: string, sep: string, t: string)
    requires sep != []
    requires FindFrom(a + sep, sep, 0) == Some(|a|)
    ensures FindFrom(a + sep + t, sep, 0) == Some(|a|)
    ensures SplitOn(a + sep + t, sep) == [a] + SplitOn(t, sep)
  {
    var s := a + sep + t;
    FindFromSpec(a + sep, sep, 0);
    assert s[..|a| + |sep|] == a + sep;
    assert OccursAt(s, sep, |a|) by { assert s[|a|..|a| + |sep|] == sep; }
    forall j | 0 <= j < |a|
      ensures !OccursAt(s, sep, j)
    {
      assert !OccursAt(a + sep, sep, j);
    }
    FindFromAt(s, sep, 0, |a|);
    assert s[..|a|] == a;
    assert s[|a| + |sep|..] == t;
  }

  /** In `a + [c]`, with no `c` in `a`, the first `c` is the last character. */
  lemma FindCharAtEnd(a: string, c: char)
    requires c !in a
    ensures FindFrom(a + [c], [c], 0) == Some(|a|)
  {
    var s := a + [c];
    forall j | 0 <= j < |a|
      ensures !OccursAt(s, [c], j)
    {
      assert s[j..j + 1] == [a[j]];
    }
    assert s[|a|..|a| + 1] == [c];
    FindFromAt(s, [c], 0, |a|);
  }

  /** A string without `c` is not cut by `split(c)`. */
  lemma SplitWithoutSeparator(t: string, c: char)
    requires c !in t
    ensures SplitOn(t, [c]) == [t]
  {
    forall j | 0 <= j <= |t|
      ensures !OccursAt(t, [c], j)
    {
      if j < |t| {
        assert t[j..j + 1] == [t[j]];
      }
    }
    FindFromSpec(t, [c], 0);
  }

  /** `s.replace(target, replacement)` for a non-empty `target`: every non-overlapping
      occurrence, left to right. */
  function ReplaceAll(s: string, target: string, replacement: string): string
    requires target != []
  {
    Join(SplitOn(s, target), replacement)
  }

  /** Replacing a one-character string by text without that character removes
      the character everywhere. */
  lemma ReplaceCharRemovesIt(s: string, c: char, replacement: string)
    requires c !in replacement
    ensures c !in ReplaceAll(s, [c], replacement)
  {
    var parts := SplitOn(s, [c]);
    SplitOnPiecesAvoidSeparator(s, [c]);
    forall k | 0 <= k < |parts|
      ensures c !in parts[k]
    {
      if c in parts[k] {
        var j :| 0 <= j < |parts[k]| && parts[k][j] == c;
        assert OccursAt(parts[k], [c], j);
      }
    }
    JoinAvoids(parts, replacement, c);
  }

  lemma {:induction false} JoinAvoids(parts: seq<string>, sep: string, c: char)
    requires c !in sep
    requires forall k :: 0 <= k < |parts| ==> c !in parts[k]
    ensures c !in Join(parts, sep)
  {
    if |parts| > 1 {
      JoinAvoids(parts[1..], sep, c);
    }
  }

  /** Replacing an occurrence that stands only at the very end. */
  lemma ReplaceAtEnd(base: string, target: string, replacement: string)
    requires target != []
    requires FindFrom(base + target, target, 0) == Some(|base|)
    ensures ReplaceAll(base + target, target, replacement) == base + replacement
  {
    SplitAtFirst(base, target, []);
    assert base + target + [] == base + target;
    var parts := SplitOn(base + target, target);
    assert FindFrom([], target, 0) == None;
    assert SplitOn([], target) == [[]];
    assert parts == [base, []];
    assert Join(parts, replacement) == base + replacement + Join([[]], replacement);
  }

  /** The part of `s` before the first `c` (all of `s` when there is none):
      `s.split(c)[0]` for a single character. */
  function UpTo(s: string, c: char): (r: string)
    ensures |r| <= |s|
    ensures c !in r
  {
    if s == [] || s[0] == c then [] else [s[0]] + UpTo(s[1..], c)
  }

  /** `UpTo` is a prefix of `s`, and it ends at a `c` unless it is all of `s`. */
  lemma {:induction false} UpToShape(s: string, c: char)
    ensures UpTo(s, c) == s[..|UpTo(s, c)|]
    ensures |UpTo(s, c)| < |s| ==> s[|UpTo(s, c)|] == c
    decreases |s|
  {
    if s != [] && s[0] != c {
      UpToShape(s[1..], c);
      assert s[..|UpTo(s, c)|] == [s[0]] + s[1..][..|UpTo(s[1..], c)|];
    }
  }

  /** `UpTo` stops at the first `c`, whatever follows it. */
  lemma UpToStopsAt(a: string, c: char, t: string)
    requires c !in a
    ensures UpTo(a + [c] + t, c) == a
  {
    if a != [] {
      assert (a + [c] + t)[1..] == a[1..] + [c] + t;
      UpToStopsAt(a[1..], c, t);
    }
  }

  lemma UpToIsFirstPiece(s: string, c: char)
    ensures UpTo(s, c) == SplitOn(s, [c])[0]
  {
    UpToShape(s, c);
    var r := UpTo(s, c);
    if |r| < |s| {
      assert OccursAt(s, [c], |r|);
      forall j | 0 <= j < |r| ensures !OccursAt(s, [c], j) {
        assert s[j] == r[j];
      }
      FindFromAt(s, [c], 0, |r|);
    } else {
      FindFromSpec(s, [c], 0);
      forall j | 0 <= j < |s| ensures !OccursAt(s, [c], j) {
        assert s[j] == r[j];
      }
    }
  }
}

/**
 * The parts of Python's `str` and list behaviour that the alert script relies
 * on: `strip()`, `upper()`, `split(sep)` and the stop index of a slice
 * `xs[:stop]`. Only ASCII is modelled.
 */
module Text {

  /** `c.isspace()` for the ASCII range: space, `\t \n \v \f \r`, and the
      four separator controls `\x1c`..`\x1f`, which Python also counts. */
  predicate IsSpace(c: char) {
    c == ' ' || (9 <= c as int <= 13) || (28 <= c as int <= 31)
  }

  predicate AllSpace(s: string) {
    forall k | 0 <= k < |s| :: IsSpace(s[k])
  }

  /** Neither end of `s` is whitespace: what `strip()` is meant to produce. */
  predicate IsStripped(s: string) {
    s == [] || (!IsSpace(s[0]) && !IsSpace(s[|s| - 1]))
  }

  predicate IsLower(c: char) {
    'a' <= c <= 'z'
  }

  /** No ASCII lower-case letter remains. */
  predicate IsUpperCase(s: string) {
    forall k | 0 <= k < |s| :: !IsLower(s[k])
  }

  /** `s.lstrip()`: a suffix of `s` that does not start with whitespace
      (`TrimStartCut` shows that only whitespace is cut). */
  function TrimStart(s: string): (r: string)
    ensures |r| <= |s| && r == s[|s| - |r|..]
    ensures r != [] ==> !IsSpace(r[0])
  {
    if s != [] && IsSpace(s[0]) then TrimStart(s[1..]) else s
  }

  /** `s.rstrip()`: a prefix of `s` that does not end with whitespace
      (`TrimEndCut` shows that only whitespace is cut). */
  function TrimEnd(s: string): (r: string)
    ensures |r| <= |s| && r == s[..|r|]
    ensures r != [] ==> !IsSpace(r[|r| - 1])
  {
    if s != [] && IsSpace(s[|s| - 1]) then TrimEnd(s[..|s| - 1]) else s
  }

  lemma {:induction false} TrimStartCut(s: string)
    ensures AllSpace(s[..|s| - |TrimStart(s)|])
    decreases |s|
  {
    if s != [] && IsSpace(s[0]) {
      TrimStartCut(s[1..]);
      var n := |s| - |TrimStart(s)|;
      forall k | 0 <= k < n ensures IsSpace(s[k]) {
        if k > 0 { assert s[k] == s[1..][..n - 1][k - 1]; }
      }
    }
  }

  lemma {:induction false} TrimEndCut(s: string)
    ensures AllSpace(s[|TrimEnd(s)|..])
    decreases |s|
  {
    if s != [] && IsSpace(s[|s| - 1]) {
      var p := s[..|s| - 1];
      TrimEndCut(p);
      var n := |TrimEnd(s)|;
      forall k | n <= k < |s| ensures IsSpace(s[k]) {
        if k < |s| - 1 { assert s[k] == p[n..][k - n]; }
      }
    }
  }

  /** `s.strip()`: `s` with the whitespace at both ends removed. The result
      is a contiguous piece of `s`, everything cut off is whitespace, and the
      result is stripped. */
  function Strip(s: string): (r: string)
    ensures IsStripped(r)
    ensures |r| <= |s|
  {
    TrimEnd(TrimStart(s))
  }

  /** Where `Strip(s)` sits in `s`: it starts after `StripOffset(s)` characters,
      and everything before and after it is whitespace. */
  function StripOffset(s: string): nat {
    |s| - |TrimStart(s)|
  }

  lemma StripIsSlice(s: string)
    ensures StripOffset(s) + |Strip(s)| <= |s|
    ensures Strip(s) == s[StripOffset(s)..StripOffset(s) + |Strip(s)|]
    ensures AllSpace(s[..StripOffset(s)])
    ensures AllSpace(s[StripOffset(s) + |Strip(s)|..])
  {
    var t := TrimStart(s);
    var r := TrimEnd(t);
    var i := |s| - |t|;
    TrimStartCut(s);
    TrimEndCut(t);
    assert t == s[i..];
    assert r == t[..|r|];
    assert r == s[i..i + |r|];
    var j := i + |r|;
    var tail := s[j..];
    forall k | 0 <= k < |tail| ensures IsSpace(tail[k]) {
      assert tail[k] == t[|r|..][k];
    }
  }

  /** Every string of the list is blank. */
  predicate AllBlank(xs: seq<string>) {
    forall k | 0 <= k < |xs| :: AllSpace(xs[k])
  }

  lemma AllBlankCons(x: string, xs: seq<string>)
    ensures AllBlank([x] + xs) <==> AllSpace(x) && AllBlank(xs)
  {
    var ys := [x] + xs;
    assert ys[0] == x;
    assert forall k | 0 <= k < |xs| :: xs[k] == ys[k + 1];
  }

  lemma AllBlankUncons(xs: seq<string>)
    requires xs != []
    ensures AllBlank(xs) <==> AllSpace(xs[0]) && AllBlank(xs[1..])
  {
    forall k | 0 <= k < |xs| - 1 ensures AllSpace(xs[1..][k]) == AllSpace(xs[k + 1]) {
      assert xs[1..][k] == xs[k + 1];
    }
  }

  lemma AllSpaceCons(c: char, s: string)
    ensures AllSpace([c] + s) <==> IsSpace(c) && AllSpace(s)
  {
    var t := [c] + s;
    assert t[0] == c;
    assert forall k | 0 <= k < |s| :: s[k] == t[k + 1];
  }

  /** Stripping yields the empty string exactly when `s` is blank. */
  lemma StripEmptyIff(s: string)
    ensures Strip(s) == [] <==> AllSpace(s)
  {
    if Strip(s) == [] {
      var t := TrimStart(s);
      if t != [] {
        TrimEndKeepsStart(t);
      }
      TrimStartCut(s);
      assert s[..|s|] == s;
    }
    if AllSpace(s) {
      AllSpaceTrimStart(s);
    }
  }

  lemma {:induction false} TrimEndKeepsStart(t: string)
    requires t != [] && !IsSpace(t[0])
    ensures TrimEnd(t) != []
    decreases |t|
  {
    if IsSpace(t[|t| - 1]) {
      TrimEndKeepsStart(t[..|t| - 1]);
    }
  }

  lemma {:induction false} AllSpaceTrimStart(s: string)
    requires AllSpace(s)
    ensures TrimStart(s) == []
    decreases |s|
  {
    if s != [] {
      assert AllSpace(s[1..]) by {
        forall k | 0 <= k < |s| - 1 ensures IsSpace(s[1..][k]) {
          assert s[1..][k] == s[k + 1];
        }
      }
      AllSpaceTrimStart(s[1..]);
    }
  }

  /** A string that is already stripped is left alone: `strip()` is idempotent. */
  lemma StripFixesStripped(s: string)
    requires IsStripped(s)
    ensures Strip(s) == s
  {
  }

  /** No character appears in `Strip(s)` that was not in `s`. */
  lemma StripChars(s: string, c: char)
    requires c !in s
    ensures c !in Strip(s)
  {
    StripIsSlice(s);
  }

  /** `c.upper()` for ASCII. */
  function UpperChar(c: char): (u: char)
    ensures !IsLower(u)
    ensures IsSpace(u) <==> IsSpace(c)
    ensures IsLower(c) ==> u as int == c as int - 32
    ensures !IsLower(c) ==> u == c
  {
    if IsLower(c) then (c as int - 32) as char else c
  }

  /** `s.upper()` for ASCII (`UpperSpec` states what it does). */
  function Upper(s: string): (r: string)
    ensures |r| == |s|
  {
    seq(|s|, k requires 0 <= k < |s| => UpperChar(s[k]))
  }

  /** Upper-casing turns every lower-case letter into its capital, leaves no
      lower-case letter and keeps a stripped string stripped. */
  lemma UpperSpec(s: string)
    ensures IsUpperCase(Upper(s))
    ensures forall k | 0 <= k < |s| && IsLower(s[k]) :: Upper(s)[k] as int == s[k] as int - 32
    ensures IsStripped(s) ==> IsStripped(Upper(s))
  {
  }

  /** Upper-casing changes no character other than a lower-case letter. */
  lemma UpperKeepsOthers(s: string, k: nat)
    requires k < |s| && !IsLower(s[k])
    ensures Upper(s)[k] == s[k]
  {
  }

  /** `s.count(c)`: how many times `c` occurs in `s`. */
  function Occurrences(s: string, c: char): nat {
    if s == [] then 0 else (if s[0] == c then 1 else 0) + Occurrences(s[1..], c)
  }

  /** `sep.join(parts)`, the inverse of `Split`. */
  function Join(parts: seq<string>, sep: char): string
    requires |parts| >= 1
  {
    if |parts| == 1 then parts[0] else parts[0] + [sep] + Join(parts[1..], sep)
  }

  /** `s.split(sep)` with an explicit separator: every occurrence of `sep`
      ends a piece, empty pieces are kept, and the empty string splits into
      one empty piece. */
  function Split(s: string, sep: char): (parts: seq<string>)
    ensures |parts| == Occurrences(s, sep) + 1
    decreases |s|
  {
    if s == [] then [""] else SplitStep(s[0], sep, Split(s[1..], sep))
  }

  /** Put character `c` in front of the pieces of the rest of the string:
      a separator opens a new, empty first piece. */
  function SplitStep(c: char, sep: char, rest: seq<string>): (parts: seq<string>)
    requires |rest| >= 1
    ensures |parts| == |rest| + (if c == sep then 1 else 0)
  {
    if c == sep then [""] + rest else [[c] + rest[0]] + rest[1..]
  }

  lemma SplitStepConcat(c: char, sep: char, x: seq<string>, y: seq<string>)
    requires |x| >= 1
    ensures SplitStep(c, sep, x + y) == SplitStep(c, sep, x) + y
  {
    assert (x + y)[0] == x[0];
    assert (x + y)[1..] == x[1..] + y;
  }

  /** No piece of a split contains the separator. */
  lemma {:induction false} SplitPiecesFree(s: string, sep: char)
    ensures forall p | p in Split(s, sep) :: sep !in p
    decreases |s|
  {
    if s != [] {
      SplitPiecesFree(s[1..], sep);
      var rest := Split(s[1..], sep);
      if s[0] != sep {
        assert forall p | p in rest[1..] :: p in rest;
        assert sep !in [s[0]] + rest[0];
      }
    }
  }

  /** Joining the pieces back together gives the original string. */
  lemma {:induction false} JoinSplit(s: string, sep: char)
    ensures Join(Split(s, sep), sep) == s
    decreases |s|
  {
    if s != [] {
      var rest := Split(s[1..], sep);
      JoinSplit(s[1..], sep);
      if s[0] == sep {
        assert Split(s, sep)[1..] == rest;
      } else {
        var parts := Split(s, sep);
        if |rest| > 1 {
          assert parts[1..] == rest[1..];
          assert Join(rest, sep) == rest[0] + [sep] + Join(rest[1..], sep);
        }
      }
    }
  }

  /** A string without the separator is one piece. */
  lemma {:induction false} SplitNoSep(s: string, sep: char)
    requires sep !in s
    ensures Split(s, sep) == [s]
    decreases |s|
  {
    if s != [] {
      assert sep !in s[1..];
      SplitNoSep(s[1..], sep);
      assert [s[0]] + s[1..] == s;
    }
  }

  /** Splitting is compositional: the pieces of `a + sep + b` are those of
      `a` followed by those of `b`, in order. */
  lemma {:induction false} SplitConcat(a: string, b: string, sep: char)
    ensures Split(a + [sep] + b, sep) == Split(a, sep) + Split(b, sep)
    decreases |a|
  {
    var s := a + [sep] + b;
    if a == [] {
      assert s[1..] == b;
    } else {
      assert s[0] == a[0];
      assert s[1..] == a[1..] + [sep] + b;
      SplitConcat(a[1..], b, sep);
      SplitStepConcat(a[0], sep, Split(a[1..], sep), Split(b, sep));
    }
  }

  /** Splitting inverts joining when no piece holds the separator. */
  lemma {:induction false} SplitJoin(parts: seq<string>, sep: char)
    requires |parts| >= 1
    requires forall p | p in parts :: sep !in p
    ensures Split(Join(parts, sep), sep) == parts
    decreases |parts|
  {
    if |parts| == 1 {
      SplitNoSep(parts[0], sep);
    } else {
      SplitJoin(parts[1..], sep);
      SplitConcat(parts[0], Join(parts[1..], sep), sep);
      SplitNoSep(parts[0], sep);
      assert parts == [parts[0]] + parts[1..];
    }
  }

  function Min(a: int, b: int): int {
    if a <= b then a else b
  }

  /** The number of elements `xs[:stop]` keeps from a list of length `n`:
      a negative stop counts from the end, and both ends clamp. */
  function SliceStop(n: nat, stop: int): (r: nat)
    ensures r <= n
    ensures 0 <= stop ==> r == Min(stop, n)
    ensures stop < 0 && n + stop >= 0 ==> r == n + stop
    ensures n + stop < 0 ==> r == 0
  {
    if stop >= 0 then Min(stop, n)
    else if n + stop >= 0 then n + stop
    else 0
  }

  /** Element `k` of a list of length `n` survives `xs[:stop]` exactly when
      it lies before the stop, where a negative stop is a position counted
      back from the end (element `k` is also element `k - n`). */
  lemma SliceStopKeeps(n: nat, stop: int, k: nat)
    requires k < n
    ensures k < SliceStop(n, stop) <==> (if stop >= 0 then k < stop else k - n < stop)
  {
  }
}

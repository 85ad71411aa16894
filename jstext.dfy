/**
 * The JavaScript string built-ins the route handlers rely on, over `string`:
 * the `\s` character class, `String.prototype.trim`, `split` on a character
 * class, `Array.prototype.join`, `endsWith`, and `filter(Boolean)` on strings.
 */
module JsText {

  /** White space as `\s` and `trim` see it: WhiteSpace and LineTerminator of ECMA-262. */
  predicate IsSpace(c: char) {
    c == '\t' || c == '\n' || c == '\U{000B}' || c == '\U{000C}' || c == '\r' || c == ' ' ||
    c == '\U{00A0}' || c == '\U{1680}' || ('\U{2000}' <= c <= '\U{200A}') ||
    c == '\U{2028}' || c == '\U{2029}' || c == '\U{202F}' || c == '\U{205F}' ||
    c == '\U{3000}' || c == '\U{FEFF}'
  }

  /** The characters that `.` does not match without the `s` flag, and that `^`/`$` see as line ends with `m`. */
  predicate IsLineTerminator(c: char) {
    c == '\n' || c == '\r' || c == '\U{2028}' || c == '\U{2029}'
  }

  lemma LineTerminatorIsSpace(c: char)
    requires IsLineTerminator(c)
    ensures IsSpace(c)
  {
  }

  predicate AllSpace(s: string) {
    forall k | 0 <= k < |s| :: IsSpace(s[k])
  }

  /** True when `s` has neither leading nor trailing white space. */
  predicate IsTrimmed(s: string) {
    s == [] || (!IsSpace(s[0]) && !IsSpace(s[|s| - 1]))
  }

  function TrimStart(s: string): (r: string)
    ensures |r| <= |s| && r == s[|s| - |r|..]
    ensures r == [] || !IsSpace(r[0])
    ensures forall k | 0 <= k < |s| - |r| :: IsSpace(s[k])
  {
    if s != [] && IsSpace(s[0]) then
      var r := TrimStart(s[1..]);
      assert forall k | 1 <= k < |s| - |r| :: s[k] == s[1..][k - 1];
      r
    else s
  }

  function TrimEnd(s: string): (r: string)
    ensures |r| <= |s| && r == s[..|r|]
    ensures r == [] || !IsSpace(r[|r| - 1])
    ensures forall k | |r| <= k < |s| :: IsSpace(s[k])
  {
    if s != [] && IsSpace(s[|s| - 1]) then TrimEnd(s[..|s| - 1]) else s
  }

  /** White space at every index before `i` makes the prefix all white space. */
  lemma SpacePrefix(s: string, i: nat)
    requires i <= |s| && forall k | 0 <= k < i :: IsSpace(s[k])
    ensures AllSpace(s[..i])
  {
    forall k | 0 <= k < i ensures IsSpace(s[..i][k]) {
      assert s[..i][k] == s[k];
    }
  }

  /** White space after the first `n` characters of the suffix `a` makes the end of `s` all white space. */
  lemma SpaceSuffix(s: string, i: nat, a: string, n: nat)
    requires i <= |s| && a == s[i..] && n <= |a|
    requires forall k | n <= k < |a| :: IsSpace(a[k])
    ensures AllSpace(s[i + n..]) && a[..n] == s[i..i + n]
  {
    var j := i + n;
    forall k | 0 <= k < |s| - j ensures IsSpace(s[j..][k]) {
      assert s[j..][k] == a[n + k];
    }
  }

  /** `s.trim()`: the slice of `s` left after dropping white space at both ends. */
  function Trim(s: string): (r: string)
    ensures IsTrimmed(r)
    ensures exists i, j | 0 <= i <= j <= |s| :: r == s[i..j] && AllSpace(s[..i]) && AllSpace(s[j..])
  {
    var a := TrimStart(s);
    var r := TrimEnd(a);
    var i := |s| - |a|;
    var j := i + |r|;
    SpacePrefix(s, i);
    SpaceSuffix(s, i, a, |r|);
    r
  }

  lemma TrimStartEmpty(s: string)
    ensures TrimStart(s) == [] <==> AllSpace(s)
  {
    var r := TrimStart(s);
    if r != [] {
      assert r[0] == s[|s| - |r|];
    }
  }

  /** A string trims to nothing exactly when it is all white space. */
  lemma TrimEmptyIffAllSpace(s: string)
    ensures Trim(s) == [] <==> AllSpace(s)
  {
    TrimStartEmpty(s);
    var a := TrimStart(s);
    if a != [] {
      assert TrimEnd(a) != [] by { assert !IsSpace(a[0]); }
    }
  }

  lemma {:induction false} TrimStartOfTrimmed(s: string)
    requires s == [] || !IsSpace(s[0])
    ensures TrimStart(s) == s
  {
  }

  /** Trimming twice is trimming once. */
  lemma TrimIdempotent(s: string)
    ensures Trim(Trim(s)) == Trim(s)
  {
    var r := Trim(s);
    TrimStartOfTrimmed(r);
    assert r == [] || !IsSpace(r[|r| - 1]);
  }

  lemma TrimmedIsFixedPoint(s: string)
    requires IsTrimmed(s)
    ensures Trim(s) == s
  {
    TrimStartOfTrimmed(s);
  }

  lemma {:induction false} TrimStartPadded(pad: string, x: string)
    requires AllSpace(pad) && (x == [] || !IsSpace(x[0]))
    ensures TrimStart(pad + x) == x
    decreases |pad|
  {
    if pad == [] {
      assert pad + x == x;
      TrimStartOfTrimmed(x);
    } else {
      assert (pad + x)[0] == pad[0] && (pad + x)[1..] == pad[1..] + x;
      assert AllSpace(pad[1..]) by {
        forall k | 0 <= k < |pad| - 1 ensures IsSpace(pad[1..][k]) { assert pad[1..][k] == pad[k + 1]; }
      }
      TrimStartPadded(pad[1..], x);
    }
  }

  /** Leading white space in front of a trimmed string is all that `trim` removes. */
  lemma TrimPadded(pad: string, x: string)
    requires AllSpace(pad) && IsTrimmed(x)
    ensures Trim(pad + x) == x
  {
    TrimStartPadded(pad, x);
    TrimStartOfTrimmed(x);
    TrimmedIsFixedPoint(x);
  }

  /** The string contains none of the characters in `seps`. */
  predicate Avoids(s: string, seps: set<char>) {
    forall k | 0 <= k < |s| :: s[k] !in seps
  }

  /**
   * `s.split(re)` where `re` is a one-character class: the fields between
   * consecutive separators, empty ones included.
   */
  function SplitOn(s: string, seps: set<char>): (r: seq<string>)
    ensures |r| >= 1
    ensures forall i | 0 <= i < |r| :: Avoids(r[i], seps)
    ensures Avoids(s, seps) ==> r == [s]
    decreases |s|
  {
    if s == [] then [""]
    else
      var rest := SplitOn(s[1..], seps);
      if s[0] in seps then [""] + rest
      else
        var first := [s[0]] + rest[0];
        assert Avoids(first, seps) by {
          forall k | 0 <= k < |first| ensures first[k] !in seps {
            if k > 0 { assert first[k] == rest[0][k - 1]; }
          }
        }
        assert Avoids(s, seps) ==> first == s by {
          if Avoids(s, seps) {
            assert Avoids(s[1..], seps) by {
              forall k | 0 <= k < |s| - 1 ensures s[1..][k] !in seps {
                assert s[1..][k] == s[k + 1];
              }
            }
            assert [s[0]] + s[1..] == s;
          }
        }
        [first] + rest[1..]
  }

  /** The first character either ends the first field or joins it. */
  lemma SplitOnCons(x: char, t: string, seps: set<char>)
    ensures SplitOn([x] + t, seps) ==
      if x in seps then [""] + SplitOn(t, seps) else [[x] + SplitOn(t, seps)[0]] + SplitOn(t, seps)[1..]
  {
    assert ([x] + t)[0] == x && ([x] + t)[1..] == t;
  }

  /** A separator character splits the input there: the fields before it, then the fields after it. */
  lemma {:induction false} SplitAtSeparator(a: string, c: char, b: string, seps: set<char>)
    requires c in seps
    ensures SplitOn(a + [c] + b, seps) == SplitOn(a, seps) + SplitOn(b, seps)
    decreases |a|
  {
    if a == [] {
      assert a + [c] + b == [c] + b;
      SplitOnCons(c, b, seps);
    } else {
      var x, t := a[0], a[1..];
      assert a == [x] + t && a + [c] + b == [x] + (t + [c] + b);
      assert SplitOn([x] + (t + [c] + b), seps) == SplitOn([x] + t, seps) + SplitOn(b, seps) by {
        SplitAtSeparator(t, c, b, seps);
        SplitCons(x, t, c, b, seps);
      }
    }
  }

  /** One step of `SplitAtSeparator`: a first character in front of both sides. */
  lemma SplitCons(x: char, t: string, c: char, b: string, seps: set<char>)
    requires SplitOn(t + [c] + b, seps) == SplitOn(t, seps) + SplitOn(b, seps)
    ensures SplitOn([x] + (t + [c] + b), seps) == SplitOn([x] + t, seps) + SplitOn(b, seps)
  {
    var ra, rb := SplitOn(t, seps), SplitOn(b, seps);
    SplitOnCons(x, t, seps);
    SplitOnCons(x, t + [c] + b, seps);
    FirstFieldAppend(x, seps, ra, rb);
  }


  lemma FirstFieldAppend(x: char, seps: set<char>, ra: seq<string>, rb: seq<string>)
    requires |ra| >= 1
    ensures (if x in seps then [""] + (ra + rb) else [[x] + (ra + rb)[0]] + (ra + rb)[1..]) ==
      (if x in seps then [""] + ra else [[x] + ra[0]] + ra[1..]) + rb
  {
    assert (ra + rb)[0] == ra[0];
    assert (ra + rb)[1..] == ra[1..] + rb;
  }

  /** Trimming only removes characters, so it cannot bring in a separator. */
  lemma TrimKeepsAvoids(s: string, seps: set<char>)
    requires Avoids(s, seps)
    ensures Avoids(Trim(s), seps)
  {
    var i, j :| 0 <= i <= j <= |s| && Trim(s) == s[i..j] && AllSpace(s[..i]) && AllSpace(s[j..]);
    SliceAvoids(s, i, j, seps);
  }

  lemma AvoidsAppend(a: string, b: string, seps: set<char>)
    requires Avoids(a, seps) && Avoids(b, seps)
    ensures Avoids(a + b, seps)
  {
    forall k | 0 <= k < |a + b| ensures (a + b)[k] !in seps {
      if k >= |a| { assert (a + b)[k] == b[k - |a|]; }
    }
  }

  /** A concatenation avoids the characters exactly when both parts do. */
  lemma AvoidsConcat(a: string, b: string, seps: set<char>)
    ensures Avoids(a + b, seps) <==> Avoids(a, seps) && Avoids(b, seps)
  {
    if Avoids(a + b, seps) {
      forall k | 0 <= k < |b| ensures b[k] !in seps {
        assert b[k] == (a + b)[|a| + k];
      }
      forall k | 0 <= k < |a| ensures a[k] !in seps {
        assert a[k] == (a + b)[k];
      }
    }
    if Avoids(a, seps) && Avoids(b, seps) {
      AvoidsAppend(a, b, seps);
    }
  }

  /** Cutting a string in two: it avoids the characters exactly when both pieces do. */
  lemma AvoidsSplit(s: string, i: nat, seps: set<char>)
    requires i <= |s|
    ensures Avoids(s, seps) <==> Avoids(s[..i], seps) && Avoids(s[i..], seps)
  {
    assert s == s[..i] + s[i..];
    AvoidsConcat(s[..i], s[i..], seps);
  }

  /** A slice of a string free of separators is free of them. */
  lemma SliceAvoids(s: string, i: nat, j: nat, seps: set<char>)
    requires Avoids(s, seps) && i <= j <= |s|
    ensures Avoids(s[i..j], seps)
  {
    var t := s[i..j];
    forall k | 0 <= k < |t| ensures t[k] !in seps {
      assert t[k] == s[i + k];
    }
  }

  /** `xs.join(sep)`. */
  function Join(xs: seq<string>, sep: string): string {
    if xs == [] then "" else if |xs| == 1 then xs[0] else xs[0] + sep + Join(xs[1..], sep)
  }

  /** A join of two or more strings: the first, the separator, then the join of the rest. */
  lemma JoinCons(xs: seq<string>, sep: string)
    requires |xs| > 1
    ensures Join(xs, sep) == xs[0] + (sep + Join(xs[1..], sep))
  {
  }

  /** Splitting a join on one of the separator characters gives the parts back. */
  lemma {:induction false} SplitJoin(xs: seq<string>, c: char, seps: set<char>)
    requires |xs| >= 1 && c in seps
    requires forall i | 0 <= i < |xs| :: Avoids(xs[i], seps)
    ensures SplitOn(Join(xs, [c]), seps) == xs
  {
    if |xs| > 1 {
      JoinCons(xs, [c]);
      SplitJoin(xs[1..], c, seps);
      SplitAtSeparator(xs[0], c, Join(xs[1..], [c]), seps);
      assert xs[0] + ([c] + Join(xs[1..], [c])) == xs[0] + [c] + Join(xs[1..], [c]);
      assert [xs[0]] + xs[1..] == xs;
    }
  }

  /** `xs.map(s => s.trim())`. */
  function TrimAll(xs: seq<string>): (r: seq<string>)
    ensures |r| == |xs|
    ensures forall i | 0 <= i < |r| :: r[i] == Trim(xs[i])
  {
    seq(|xs|, i requires 0 <= i < |xs| => Trim(xs[i]))
  }

  lemma TrimAllAt(a: seq<string>, b: seq<string>, k: nat)
    requires k < |a| + |b|
    ensures TrimAll(a + b)[k] == (TrimAll(a) + TrimAll(b))[k]
  {
    var l, ta, tb := TrimAll(a + b), TrimAll(a), TrimAll(b);
    if k < |a| {
      assert (a + b)[k] == a[k];
      assert l[k] == Trim(a[k]) == ta[k] == (ta + tb)[k];
    } else {
      var j := k - |a|;
      assert (a + b)[k] == b[j];
      assert l[k] == Trim(b[j]) == tb[j] == (ta + tb)[k];
    }
  }

  lemma TrimAllAppend(a: seq<string>, b: seq<string>)
    ensures TrimAll(a + b) == TrimAll(a) + TrimAll(b)
  {
    var l, r := TrimAll(a + b), TrimAll(a) + TrimAll(b);
    forall k | 0 <= k < |l| ensures l[k] == r[k] {
      TrimAllAt(a, b, k);
    }
  }

  lemma TrimAllCons(x: string, xs: seq<string>)
    ensures TrimAll([x] + xs) == [Trim(x)] + TrimAll(xs)
  {
    var l, r := TrimAll([x] + xs), [Trim(x)] + TrimAll(xs);
    assert |l| == |r|;
    forall k | 0 <= k < |l| ensures l[k] == r[k] {
      if k > 0 { assert ([x] + xs)[k] == xs[k - 1]; }
    }
  }

  lemma NonEmptyCons(x: string, xs: seq<string>)
    ensures NonEmpty([x] + xs) == if x == "" then NonEmpty(xs) else [x] + NonEmpty(xs)
  {
    assert ([x] + xs)[1..] == xs;
  }

  /** `xs.filter(Boolean)` on strings: the non-empty ones, in order. */
  function NonEmpty(xs: seq<string>): (r: seq<string>)
    ensures |r| <= |xs|
    ensures forall i | 0 <= i < |r| :: r[i] != "" && r[i] in xs
    ensures forall i | 0 <= i < |xs| && xs[i] != "" :: xs[i] in r
  {
    if xs == [] then []
    else if xs[0] == "" then NonEmpty(xs[1..])
    else [xs[0]] + NonEmpty(xs[1..])
  }

  /** A single field is kept trimmed, or dropped when it is blank. */
  lemma CleanSingle(x: string)
    ensures NonEmpty(TrimAll([x])) == if AllSpace(x) then [] else [Trim(x)]
  {
    TrimEmptyIffAllSpace(x);
    assert TrimAll([x]) == [Trim(x)];
    NonEmptyCons(Trim(x), []);
    assert [Trim(x)] + [] == [Trim(x)];
  }

  /** A single blank field trims to nothing and is dropped. */
  lemma BlankFieldDropped()
    ensures NonEmpty(TrimAll([""])) == []
  {
    assert Trim("") == "" by {
      TrimEmptyIffAllSpace("");
    }
    assert TrimAll([""]) == [""];
  }

  /** Fields free of separators stay free of them once trimmed and filtered. */
  lemma TrimmedFieldsAvoid(fields: seq<string>, seps: set<char>)
    requires forall i | 0 <= i < |fields| :: Avoids(fields[i], seps)
    ensures forall x | x in NonEmpty(TrimAll(fields)) :: Avoids(x, seps)
  {
    var trimmed := TrimAll(fields);
    forall i | 0 <= i < |trimmed| ensures Avoids(trimmed[i], seps) {
      TrimKeepsAvoids(fields[i], seps);
    }
  }

  /** Filtering works piecewise, so it keeps the order of what it keeps. */
  lemma {:induction false} NonEmptyAppend(a: seq<string>, b: seq<string>)
    ensures NonEmpty(a + b) == NonEmpty(a) + NonEmpty(b)
  {
    if a == [] {
      assert a + b == b;
    } else {
      assert (a + b)[1..] == a[1..] + b;
      NonEmptyAppend(a[1..], b);
    }
  }

  /** Splitting off the first character of a non-empty prefix. */
  lemma ConsAppend(p: string, u: string)
    requires p != []
    ensures [p[0]] + (p[1..] + u) == p + u
  {
    assert [p[0]] + p[1..] == p;
  }

  /** Regrouping a concatenation of five pieces. */
  lemma Regroup(a: string, p: string, q: string, r: string, t: string)
    ensures a + p + q + r + t == a + (p + q + r + t)
  {
  }

  /** `s.endsWith(suffix)`: case-sensitive comparison of the last characters. */
  predicate EndsWith(s: string, suffix: string) {
    |suffix| <= |s| && s[|s| - |suffix|..] == suffix
  }

  predicate StartsWith(s: string, prefix: string) {
    |prefix| <= |s| && s[..|prefix|] == prefix
  }

  /** The literal `lit` occurs in `s` at index `i`. */
  predicate At(s: string, i: nat, lit: string) {
    i + |lit| <= |s| && s[i..i + |lit|] == lit
  }

  lemma Framed(a: string, b: string, c: string)
    ensures StartsWith(a + b + c, a) && EndsWith(a + b + c, c)
  {
    assert (a + b + c)[..|a|] == a;
    assert (a + b + c)[|a + b + c| - |c|..] == c;
  }
}

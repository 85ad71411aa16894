/**
 * The markup stages of `formatSummaryHTML` (server/routes/shareRoutes.js, lines 8-24):
 * a fixed sequence of regular-expression rewrites from the markdown-like
 * summary to an HTML fragment.
 *
 * Every global `replace` is modelled as a left-to-right scan over the
 * remaining suffix: at each position the pattern is tried the way the regex
 * engine backtracks, and on success the scan resumes after the match, else
 * one character is copied and the scan moves on. None of the patterns looks
 * behind, and `$` without the `m` flag means the end of the input, so a match
 * at a position depends only on the suffix from there. The two line-anchored
 * patterns (`^` with the `m` flag) are modelled line by line instead.
 */
module Markup {
  import opened Wrappers
  import opened JsText

  /** No `a` in `s` is immediately followed by `b`. */
  predicate NoPair(s: string, a: char, b: char) {
    forall i, j {:trigger s[i], s[j]} | 0 <= i < |s| && 0 <= j < |s| && j == i + 1 :: !(s[i] == a && s[j] == b)
  }

  lemma NoPairAppend(s: string, t: string, a: char, b: char)
    requires NoPair(s, a, b) && NoPair(t, a, b)
    requires s == [] || t == [] || !(s[|s| - 1] == a && t[0] == b)
    ensures NoPair(s + t, a, b)
  {
    var u := s + t;
    forall k | 0 <= k < |u| - 1 ensures !(u[k] == a && u[k + 1] == b) {
      if k + 1 < |s| {
        assert u[k] == s[k] && u[k + 1] == s[k + 1];
      } else if k >= |s| {
        assert u[k] == t[k - |s|] && u[k + 1] == t[k + 1 - |s|];
      }
    }
  }

  lemma AvoidsNoPair(s: string, a: char, b: char)
    requires Avoids(s, {a})
    ensures NoPair(s, a, b)
  {
  }

  /** `s` holds no line terminator. */
  predicate OneLine(s: string) {
    forall k | 0 <= k < |s| :: !IsLineTerminator(s[k])
  }

  // ---------------------------------------------------------------------------
  // Stage 1, line 10: /\*\*(.*?)\*\*/g  ->  <strong>$1</strong>

  /**
   * The lazy `(.*?)\*\*` after an opening `**`, starting at index `i`: the
   * first `**` at or after `i`, provided no line terminator (which `.` does
   * not match) comes before it.
   */
  function BoldClose(s: string, i: nat): (r: Option<nat>)
    requires i <= |s|
    ensures r.Some? ==> i <= r.value && At(s, r.value, "**")
    ensures r.Some? ==> forall k | i <= k < r.value :: !IsLineTerminator(s[k]) && !At(s, k, "**")
    ensures r.None? ==> forall k | i <= k <= LineEnd(s, i) :: !At(s, k, "**")
    decreases |s| - i
  {
    if At(s, i, "**") then Some(i)
    else if i == |s| || IsLineTerminator(s[i]) then None
    else BoldClose(s, i + 1)
  }

  /** Stage 1: every `**X**` with `X` inside one line becomes `<strong>X</strong>`. */
  function Bold(s: string): (r: string)
    ensures |s| <= |r|
    decreases |s|
  {
    if s == [] then []
    else if At(s, 0, "**") && BoldClose(s, 2).Some? then
      var k := BoldClose(s, 2).value;
      "<strong>" + s[2..k] + "</strong>" + Bold(s[k + 2..])
    else [s[0]] + Bold(s[1..])
  }

  /** Text without a `**` is left alone by the bold stage. */
  lemma {:induction false} BoldPlain(s: string)
    requires NoPair(s, '*', '*')
    ensures Bold(s) == s
    decreases |s|
  {
    if s != [] {
      assert !At(s, 0, "**") by { if |s| >= 2 { assert s[0] != '*' || s[1] != '*'; } }
      assert NoPair(s[1..], '*', '*') by {
        forall k | 0 <= k < |s[1..]| - 1 ensures !(s[1..][k] == '*' && s[1..][k + 1] == '*') {
          assert s[1..][k] == s[k + 1] && s[1..][k + 1] == s[k + 2];
        }
      }
      BoldPlain(s[1..]);
    }
  }

  lemma {:induction false} BoldCloseSkips(s: string, i: nat, j: nat)
    requires i <= j <= |s|
    requires forall k | i <= k < j :: !At(s, k, "**") && !IsLineTerminator(s[k])
    ensures BoldClose(s, i) == BoldClose(s, j)
    decreases j - i
  {
    if i < j {
      BoldCloseSkips(s, i + 1, j);
    }
  }

  /** Text in which no `*` is followed by `*`, and which does not end in `*`. */
  predicate StarSafe(x: string) {
    NoPair(x, '*', '*') && (x == [] || x[|x| - 1] != '*')
  }

  /** A bold span at the start: `**x**` with no `**` inside `x` and no `*` at its end. */
  lemma BoldSpanAtStart(x: string, b: string)
    requires StarSafe(x) && OneLine(x)
    ensures Bold("**" + x + "**" + b) == "<strong>" + x + "</strong>" + Bold(b)
  {
    var s := "**" + x + "**" + b;
    var n := 2 + |x|;
    assert At(s, 0, "**") by { assert s[..2] == "**"; }
    assert s[2..n] == x;
    assert At(s, n, "**") by { assert s[n..n + 2] == "**"; }
    forall k | 2 <= k < n ensures !At(s, k, "**") && !IsLineTerminator(s[k]) {
      assert s[k] == x[k - 2];
      if k + 1 < n {
        assert s[k + 1] == x[k - 1];
      } else {
        assert s[k] == x[|x| - 1];
      }
    }
    BoldCloseSkips(s, 2, n);
    assert s[n + 2..] == b;
  }

  /** A character that does not open `**` is copied. */
  lemma BoldCopies(s: string)
    requires s != [] && !At(s, 0, "**")
    ensures Bold(s) == [s[0]] + Bold(s[1..])
  {
  }

  /** A `**` with no closing `**` on its line stays: its first `*` is copied and the scan goes on after it. */
  lemma BoldUnclosed(s: string)
    requires At(s, 0, "**") && BoldClose(s, 2).None?
    ensures Bold(s) == [s[0]] + Bold(s[1..])
  {
  }

  /** `**` before text with no `**` in it (and not starting with `*`) is copied literally. */
  lemma BoldUnclosedSpan(x: string)
    requires NoPair(x, '*', '*') && (x == [] || x[0] != '*')
    ensures Bold("**" + x) == "**" + x
  {
    var s := "**" + x;
    assert At(s, 0, "**");
    forall k | 2 <= k <= |s| ensures !At(s, k, "**") {
      if k + 2 <= |s| {
        assert s[k] == x[k - 2] && s[k + 1] == x[k - 1];
        assert s[k..k + 2][0] == s[k] && s[k..k + 2][1] == s[k + 1];
      }
    }
    BoldUnclosed(s);
    var t := s[1..];
    assert t == "*" + x;
    BoldCopies(t);
    assert t[1..] == x;
    BoldPlain(x);
    assert [s[0]] + ([t[0]] + x) == s;
  }

  lemma {:induction false} BoldSkip(p: string, rest: string)
    requires p != [] && NoPair(p, '*', '*') && p[|p| - 1] != '*'
    ensures Bold(p + rest) == p + Bold(rest)
    decreases |p|
  {
    var s := p + rest;
    assert s[0] == p[0];
    assert !At(s, 0, "**") by {
      if |p| >= 2 { assert s[1] == p[1]; }
    }
    BoldCopies(s);
    assert Bold(s) == [p[0]] + Bold(s[1..]);
    if |p| > 1 {
      assert s[1..] == p[1..] + rest;
      NoPairSuffix(p, '*', '*');
      BoldSkip(p[1..], rest);
      ConsAppend(p, Bold(rest));
    } else {
      assert s[1..] == rest;
      assert [p[0]] == p;
    }
  }

  /** A bold span inside one line, after text without `**`, is rewritten and the scan goes on after it. */
  lemma BoldSpan(a: string, x: string, b: string)
    requires StarSafe(a) && StarSafe(x) && OneLine(x)
    ensures Bold(a + "**" + x + "**" + b) == a + "<strong>" + x + "</strong>" + Bold(b)
  {
    var span := "**" + x + "**" + b;
    BoldSpanAtStart(x, b);
    Regroup(a, "**", x, "**", b);
    Regroup(a, "<strong>", x, "</strong>", Bold(b));
    if a != [] {
      BoldSkip(a, span);
    } else {
      assert a + span == span;
    }
  }

  // ---------------------------------------------------------------------------
  // Stages 2 and 3, lines 12 and 14: /^\* (.*$)/gm and /^    \* (.*$)/gm

  /** The two line-anchored bullet rules. */
  datatype Bullet = Top | Sub

  /** What must open a line for the rule to apply: `* `, or exactly four spaces and `* `. */
  function Marker(b: Bullet): string {
    match b
    case Top => "* "
    case Sub => "    * "
  }

  /** One line under one bullet rule: `<li>rest</li>` or `<ul><li>rest</li></ul>` when it opens with the marker. */
  function BulletLine(b: Bullet, line: string): (r: string)
    ensures !StartsWith(line, Marker(b)) ==> r == line
    ensures StartsWith(line, Marker(b)) && b == Top ==> r == "<li>" + line[2..] + "</li>"
    ensures StartsWith(line, Marker(b)) && b == Sub ==> r == "<ul><li>" + line[6..] + "</li></ul>"
  {
    if StartsWith(line, Marker(b)) then
      var rest := line[|Marker(b)|..];
      match b
      case Top => "<li>" + rest + "</li>"
      case Sub => "<ul><li>" + rest + "</li></ul>"
    else line
  }

  /** The end of the line that starts at `i`: the next line terminator, or the end of `s`. */
  function LineEnd(s: string, i: nat): (e: nat)
    requires i <= |s|
    ensures i <= e <= |s|
    ensures e < |s| ==> IsLineTerminator(s[e])
    ensures forall k | i <= k < e :: !IsLineTerminator(s[k])
    decreases |s| - i
  {
    if i == |s| || IsLineTerminator(s[i]) then i else LineEnd(s, i + 1)
  }

  /** Stages 2 and 3: the bullet rule applied to every line; the line terminators stay. */
  function Bullets(b: Bullet, s: string): (r: string)
    ensures |s| <= |r|
    decreases |s|
  {
    var e := LineEnd(s, 0);
    BulletLine(b, s[..e]) + if e == |s| then "" else [s[e]] + Bullets(b, s[e + 1..])
  }

  lemma {:induction false} LineEndOf(line: string, rest: string, i: nat)
    requires OneLine(line) && i <= |line|
    requires rest == [] || IsLineTerminator(rest[0])
    ensures LineEnd(line + rest, i) == |line|
    decreases |line| - i
  {
    if i < |line| {
      LineEndOf(line, rest, i + 1);
    }
  }

  /** The bullet stages act line by line: a line and its terminator are rewritten on their own. */
  lemma BulletsLine(b: Bullet, line: string, t: char, rest: string)
    requires OneLine(line) && IsLineTerminator(t)
    ensures Bullets(b, line + [t] + rest) == BulletLine(b, line) + [t] + Bullets(b, rest)
  {
    var s := line + [t] + rest;
    LineEndOf(line, [t] + rest, 0);
    assert s == line + ([t] + rest);
    assert s[..|line|] == line && s[|line|] == t && s[|line| + 1..] == rest;
  }

  lemma BulletsLastLine(b: Bullet, line: string)
    requires OneLine(line)
    ensures Bullets(b, line) == BulletLine(b, line)
  {
    LineEndOf(line, [], 0);
    assert line + [] == line;
  }

  lemma BulletLinePlain(b: Bullet, line: string)
    requires Avoids(line, {'*'})
    ensures BulletLine(b, line) == line
  {
    var m := |Marker(b)| - 2;
    assert Marker(b)[m] == '*';
  }

  /** Text without stars is left alone by both bullet stages. */
  lemma {:induction false} BulletsPlain(b: Bullet, s: string)
    requires Avoids(s, {'*'})
    ensures Bullets(b, s) == s
    decreases |s|
  {
    var e := LineEnd(s, 0);
    var line := s[..e];
    BulletLinePlain(b, line);
    if e < |s| {
      var rest := s[e + 1..];
      assert s == line + [s[e]] + rest;
      BulletsLine(b, line, s[e], rest);
      BulletsPlain(b, rest);
    } else {
      assert s == line;
      BulletsLastLine(b, line);
    }
  }

  // ---------------------------------------------------------------------------
  // Stage 4, line 16: /\n/g  ->  <br>

  /** Stage 4: every `\n` becomes `<br>`; the other line terminators stay. */
  function Breaks(s: string): (r: string)
    ensures Avoids(r, {'\n'})
    ensures r == s <==> Avoids(s, {'\n'})
    ensures |r| >= |s|
  {
    if s == [] then []
    else
      var rest := Breaks(s[1..]);
      var head := if s[0] == '\n' then "<br>" else [s[0]];
      assert Avoids(head + rest, {'\n'}) by {
        forall k | 0 <= k < |head + rest| ensures (head + rest)[k] != '\n' {
          if k >= |head| { assert (head + rest)[k] == rest[k - |head|]; }
        }
      }
      assert head + rest == s <==> Avoids(s, {'\n'}) by {
        if s[0] == '\n' {
          assert (head + rest)[0] == '<';
          assert s[0] == '\n';
        } else {
          assert head + rest == s <==> rest == s[1..] by {
            if head + rest == s { assert rest == (head + rest)[1..]; }
            if rest == s[1..] { assert [s[0]] + s[1..] == s; }
          }
          assert Avoids(s, {'\n'}) <==> Avoids(s[1..], {'\n'}) by {
            if Avoids(s[1..], {'\n'}) {
              forall k | 0 <= k < |s| ensures s[k] != '\n' { if k > 0 { assert s[k] == s[1..][k - 1]; } }
            }
          }
        }
      }
      head + rest
  }

  /** The newline stage works piecewise. */
  lemma {:induction false} BreaksAppend(a: string, b: string)
    ensures Breaks(a + b) == Breaks(a) + Breaks(b)
    decreases |a|
  {
    if a == [] {
      assert a + b == b;
    } else {
      assert (a + b)[0] == a[0] && (a + b)[1..] == a[1..] + b;
      BreaksAppend(a[1..], b);
    }
  }

  // ---------------------------------------------------------------------------
  // Stage 5, line 19: /(<li>.*?<\/li>)(?:\s*<br>\s*)?(?=<li>|$)/gs  ->  <ul>$1</ul>

  /** The end of the greedy `\s*` run that starts at `i`. */
  function SkipSpace(s: string, i: nat): (j: nat)
    requires i <= |s|
    ensures i <= j <= |s|
    ensures j < |s| ==> !IsSpace(s[j])
    ensures forall k | i <= k < j :: IsSpace(s[k])
    decreases |s| - i
  {
    if i < |s| && IsSpace(s[i]) then SkipSpace(s, i + 1) else i
  }

  /** The lookahead `(?=<li>|$)`: an item starts at `q`, or `q` is the end of the input. */
  predicate ItemAhead(s: string, q: nat) {
    q == |s| || At(s, q, "<li>")
  }

  /**
   * After a candidate `</li>` ending at `g`: the optional `\s*<br>\s*` (tried
   * first, being greedy) followed by the lookahead, else the lookahead alone.
   * Both `<br>` and `<li>` begin with a non-space, so a `\s*` can succeed
   * only by taking the whole white-space run. The result is where the match ends.
   */
  function ItemTail(s: string, g: nat): (r: Option<nat>)
    requires g <= |s|
    ensures r.Some? ==> g <= r.value <= |s| && ItemAhead(s, r.value)
    ensures r.Some? && r.value != g ==>
      At(s, SkipSpace(s, g), "<br>") && r.value == SkipSpace(s, SkipSpace(s, g) + 4)
    ensures r.None? ==> !ItemAhead(s, g)
  {
    var w := SkipSpace(s, g);
    if At(s, w, "<br>") && ItemAhead(s, SkipSpace(s, w + 4)) then Some(SkipSpace(s, w + 4))
    else if ItemAhead(s, g) then Some(g)
    else None
  }

  /** A `</li>` at `k` after which the tail succeeds: where the lazy item body may stop. */
  predicate Closes(s: string, k: nat) {
    At(s, k, "</li>") && ItemTail(s, k + 5).Some?
  }

  /**
   * The lazy `.*?<\/li>` from index `i` (the `s` flag lets `.` match anything):
   * the first `</li>` whose tail succeeds. The result is the end of the
   * captured item and the end of the whole match.
   */
  function ItemClose(s: string, i: nat): (r: Option<(nat, nat)>)
    requires i <= |s|
    ensures r.Some? ==> i + 5 <= r.value.0 <= r.value.1 <= |s| && Closes(s, r.value.0 - 5)
    ensures r.Some? ==> ItemTail(s, r.value.0) == Some(r.value.1)
    ensures r.Some? ==> forall k | i <= k < r.value.0 - 5 :: !Closes(s, k)
    ensures r.None? ==> forall k | i <= k <= |s| :: !Closes(s, k)
    decreases |s| - i
  {
    if Closes(s, i) then Some((i + 5, ItemTail(s, i + 5).value))
    else if i == |s| then None
    else ItemClose(s, i + 1)
  }

  /** A run opening with `<li>`, wrapped: it opens with `<ul><li>` and gains no newline. */
  lemma WrappedRun(run: string, rest: string)
    requires At(run, 0, "<li>")
    ensures StartsWith("<ul>" + run + "</ul>" + rest, "<ul><li>")
    ensures Avoids(run, {'\n'}) && Avoids(rest, {'\n'}) ==> Avoids("<ul>" + run + "</ul>" + rest, {'\n'})
  {
    var r := "<ul>" + run + "</ul>" + rest;
    assert r[..8] == "<ul>" + run[..4];
    AvoidsConcat("<ul>" + run, "</ul>", {'\n'});
    AvoidsConcat("<ul>", run, {'\n'});
    AvoidsConcat("<ul>" + run + "</ul>", rest, {'\n'});
  }

  /** Stage 5: each matched item run is wrapped in `<ul>`, and the `<br>` after it is dropped. */
  function WrapItems(s: string): (r: string)
    ensures Avoids(s, {'\n'}) ==> Avoids(r, {'\n'})
    ensures At(s, 0, "<li>") && ItemClose(s, 4).Some? ==> StartsWith(r, "<ul><li>")
    ensures s != [] && !(At(s, 0, "<li>") && ItemClose(s, 4).Some?) ==> r != [] && r[0] == s[0]
    decreases |s|
  {
    if s == [] then []
    else if At(s, 0, "<li>") && ItemClose(s, 4).Some? then
      var (g, e) := ItemClose(s, 4).value;
      var rest := WrapItems(s[e..]);
      AvoidsSplit(s, g, {'\n'});
      AvoidsSplit(s, e, {'\n'});
      WrappedRun(s[..g], rest);
      "<ul>" + s[..g] + "</ul>" + rest
    else
      var rest := WrapItems(s[1..]);
      AvoidsSplit(s, 1, {'\n'});
      AvoidsConcat([s[0]], rest, {'\n'});
      [s[0]] + rest
  }

  /** A literal that opens with `<c` cannot occur in text without `<c`. */
  lemma NoPairNotAt(s: string, i: nat, lit: string, c: char)
    requires NoPair(s, '<', c)
    requires |lit| >= 2 && lit[0] == '<' && lit[1] == c
    ensures !At(s, i, lit)
  {
  }

  lemma NoPairSuffix(s: string, a: char, b: char)
    requires NoPair(s, a, b) && s != []
    ensures NoPair(s[1..], a, b)
  {
    forall k | 0 <= k < |s[1..]| - 1 ensures !(s[1..][k] == a && s[1..][k + 1] == b) {
      assert s[1..][k] == s[k + 1] && s[1..][k + 1] == s[k + 2];
    }
  }

  /** Without any `<l` the wrapping stage has nothing to match. */
  lemma {:induction false} WrapItemsPlain(s: string)
    requires NoPair(s, '<', 'l')
    ensures WrapItems(s) == s
    decreases |s|
  {
    if s != [] {
      NoPairNotAt(s, 0, "<li>", 'l');
      NoPairSuffix(s, '<', 'l');
      WrapItemsPlain(s[1..]);
    }
  }

  lemma {:induction false} ItemCloseSkips(s: string, i: nat, j: nat)
    requires i <= j <= |s|
    requires forall k | i <= k < j :: s[k] != '<'
    ensures ItemClose(s, i) == ItemClose(s, j)
    decreases j - i
  {
    if i < j {
      assert !At(s, i, "</li>") by { assert s[i] != '<'; }
      ItemCloseSkips(s, i + 1, j);
    }
  }

  /** The lazy scan from `i` stops at the first `</li>` whose tail matches, here the one at `m`. */
  lemma ItemCloseFinds(s: string, i: nat, m: nat, e: nat)
    requires i <= m && At(s, m, "</li>")
    requires forall k | i <= k < m :: s[k] != '<'
    requires ItemTail(s, m + 5) == Some(e)
    ensures ItemClose(s, i) == Some((m + 5, e))
  {
    ItemCloseSkips(s, i, m);
  }

  /** One step of the wrapping scan at an item whose match is known. */
  lemma WrapItemsStep(s: string, g: nat, e: nat)
    requires At(s, 0, "<li>") && ItemClose(s, 4) == Some((g, e))
    ensures WrapItems(s) == "<ul>" + s[..g] + "</ul>" + WrapItems(s[e..])
  {
  }

  // ---------------------------------------------------------------------------
  // Stages 6-8, lines 22-24: literals separated by greedy \s*, replaced by a fixed string

  /**
   * The literals `toks` at index `i`, with a `\s*` between consecutive ones.
   * Each literal after the first begins with `<`, so the greedy `\s*` can only
   * succeed by taking the whole white-space run. The result is the match end.
   */
  function MatchSpaced(s: string, i: nat, toks: seq<string>): (r: Option<nat>)
    requires i <= |s|
    ensures r.Some? ==> i <= r.value <= |s|
    ensures r.Some? && toks != [] ==> i + |toks[0]| <= r.value
    ensures r.Some? && toks != [] ==>
      At(s, i, toks[0]) && |toks[|toks| - 1]| <= r.value && At(s, r.value - |toks[|toks| - 1]|, toks[|toks| - 1])
    decreases |toks|
  {
    if toks == [] then Some(i)
    else if At(s, i, toks[0]) then
      var j := i + |toks[0]|;
      if |toks| == 1 then Some(j) else MatchSpaced(s, SkipSpace(s, j), toks[1..])
    else None
  }

  /** A global `replace` of the spaced literals `toks` by `repl`. */
  function ReplaceSpaced(s: string, toks: seq<string>, repl: string): (r: string)
    requires toks != [] && toks[0] != []
    ensures Avoids(s, {'\n'}) && Avoids(repl, {'\n'}) ==> Avoids(r, {'\n'})
    decreases |s|
  {
    if s == [] then []
    else match MatchSpaced(s, 0, toks)
      case Some(e) =>
        var rest := ReplaceSpaced(s[e..], toks, repl);
        AvoidsSplit(s, e, {'\n'});
        AvoidsConcat(repl, rest, {'\n'});
        repl + rest
      case None =>
        var rest := ReplaceSpaced(s[1..], toks, repl);
        AvoidsSplit(s, 1, {'\n'});
        AvoidsConcat([s[0]], rest, {'\n'});
        [s[0]] + rest
  }

  /** Line 22: `</ul>\s*<br>\s*<ul>` is removed. */
  const JoinLists: seq<string> := ["</ul>", "<br>", "<ul>"]
  /** Line 23: `<br>\s*<ul>` becomes `<ul>`. */
  const BreakBeforeList: seq<string> := ["<br>", "<ul>"]
  /** Line 24: `</ul>\s*<br>` becomes `</ul>`. */
  const BreakAfterList: seq<string> := ["</ul>", "<br>"]

  lemma {:induction false} MatchSpacedMisses(s: string, i: nat, toks: seq<string>, m: nat, c: char)
    requires i <= |s| && m < |toks|
    requires |toks[m]| >= 2 && toks[m][0] == '<' && toks[m][1] == c
    requires NoPair(s, '<', c)
    ensures MatchSpaced(s, i, toks).None?
    decreases |toks|
  {
    if m == 0 {
      NoPairNotAt(s, i, toks[0], c);
    } else if At(s, i, toks[0]) {
      {
        MatchSpacedMisses(s, SkipSpace(s, i + |toks[0]|), toks[1..], m - 1, c);
      }
    }
  }

  /** A cleanup whose pattern needs a `<c` the text does not have changes nothing. */
  lemma {:induction false} ReplaceSpacedPlain(s: string, toks: seq<string>, repl: string, m: nat, c: char)
    requires toks != [] && toks[0] != [] && m < |toks|
    requires |toks[m]| >= 2 && toks[m][0] == '<' && toks[m][1] == c
    requires NoPair(s, '<', c)
    ensures ReplaceSpaced(s, toks, repl) == s
    decreases |s|
  {
    if s != [] {
      MatchSpacedMisses(s, 0, toks, m, c);
      NoPairSuffix(s, '<', c);
      ReplaceSpacedPlain(s[1..], toks, repl, m, c);
    }
  }

  /** The greedy `\s*` at `i` takes exactly the white-space run `w` when a non-space (or the end) follows it. */
  lemma {:induction false} SkipSpaceRun(s: string, i: nat, w: string)
    requires At(s, i, w) && AllSpace(w)
    requires i + |w| == |s| || !IsSpace(s[i + |w|])
    ensures SkipSpace(s, i) == i + |w|
    decreases |w|
  {
    if w != [] {
      assert s[i] == w[0];
      assert At(s, i + 1, w[1..]) by { assert s[i + 1..i + |w|] == s[i..i + |w|][1..]; }
      SkipSpaceRun(s, i + 1, w[1..]);
    }
  }

  /** Two literals with a white-space run `w` between them: the spaced pattern matches all of it. */
  lemma MatchSpacedPair(s: string, i: nat, t1: string, w: string, t2: string)
    requires At(s, i, t1) && At(s, i + |t1|, w) && AllSpace(w) && At(s, i + |t1| + |w|, t2)
    requires t2 != [] && !IsSpace(t2[0])
    ensures MatchSpaced(s, i, [t1, t2]) == Some(i + |t1| + |w| + |t2|)
  {
    assert s[i + |t1| + |w|] == t2[0];
    SkipSpaceRun(s, i + |t1|, w);
    assert [t1, t2][1..] == [t2];
  }

  /** `s` is `a`, then `w`, then `c`, then `d`, read as positions. */
  lemma Pieces(a: string, w: string, c: string, d: string)
    ensures var s := a + w + c + d;
      At(s, 0, a) && At(s, |a|, w) && At(s, |a| + |w|, c) && s[|a| + |w| + |c|..] == d
  {
    var s := a + w + c + d;
    assert s[..|a|] == a;
    assert s[|a|..|a| + |w|] == w;
    assert s[|a| + |w|..|a| + |w| + |c|] == c;
  }

  /** Three literals with the white-space runs `w1` and `w2` between them: the spaced pattern matches all of it. */
  lemma MatchSpacedTriple(s: string, t1: string, w1: string, t2: string, w2: string, t3: string)
    requires At(s, 0, t1) && At(s, |t1|, w1) && AllSpace(w1)
    requires At(s, |t1| + |w1|, t2) && At(s, |t1| + |w1| + |t2|, w2) && AllSpace(w2)
    requires At(s, |t1| + |w1| + |t2| + |w2|, t3)
    requires t2 != [] && !IsSpace(t2[0]) && t3 != [] && !IsSpace(t3[0])
    ensures MatchSpaced(s, 0, [t1, t2, t3]) == Some(|t1| + |w1| + |t2| + |w2| + |t3|)
  {
    var j := |t1| + |w1|;
    assert s[j] == t2[0];
    SkipSpaceRun(s, |t1|, w1);
    MatchSpacedPair(s, j, t2, w2, t3);
    assert [t1, t2, t3][1..] == [t2, t3];
  }

  /** Line 22: a `</ul>`, white space, `<br>`, white space and `<ul>` are removed together. */
  lemma JoinListsRemoved(w1: string, w2: string, rest: string)
    requires AllSpace(w1) && AllSpace(w2)
    ensures ReplaceSpaced("</ul>" + w1 + "<br>" + w2 + "<ul>" + rest, JoinLists, "") ==
      ReplaceSpaced(rest, JoinLists, "")
  {
    var s := "</ul>" + w1 + "<br>" + w2 + "<ul>" + rest;
    var a, b, c, d := 5, 5 + |w1|, 9 + |w1|, 9 + |w1| + |w2|;
    assert s[..a] == "</ul>";
    assert s[a..b] == w1;
    assert s[b..c] == "<br>";
    assert s[c..d] == w2;
    assert s[d..d + 4] == "<ul>";
    assert s[d + 4..] == rest;
    MatchSpacedTriple(s, "</ul>", w1, "<br>", w2, "<ul>");
  }

  /** Line 23: `<br>`, white space and `<ul>` become `<ul>`. */
  lemma BreakBeforeListReplaced(w: string, rest: string)
    requires AllSpace(w)
    ensures ReplaceSpaced("<br>" + w + "<ul>" + rest, BreakBeforeList, "<ul>") ==
      "<ul>" + ReplaceSpaced(rest, BreakBeforeList, "<ul>")
  {
    var s := "<br>" + w + "<ul>" + rest;
    Pieces("<br>", w, "<ul>", rest);
    MatchSpacedPair(s, 0, "<br>", w, "<ul>");
  }

  /** Line 24: `</ul>`, white space and `<br>` become `</ul>`. */
  lemma BreakAfterListReplaced(w: string, rest: string)
    requires AllSpace(w)
    ensures ReplaceSpaced("</ul>" + w + "<br>" + rest, BreakAfterList, "</ul>") ==
      "</ul>" + ReplaceSpaced(rest, BreakAfterList, "</ul>")
  {
    var s := "</ul>" + w + "<br>" + rest;
    Pieces("</ul>", w, "<br>", rest);
    MatchSpacedPair(s, 0, "</ul>", w, "<br>");
  }

  // ---------------------------------------------------------------------------
  // The whole pipeline, lines 8-24

  lemma CleanupTextsOneLine()
    ensures Avoids("", {'\n'}) && Avoids("<ul>", {'\n'}) && Avoids("</ul>", {'\n'})
  {
    assert "</ul>"[4] != '\n';
  }

  /** The HTML fragment `formatSummaryHTML` builds from the summary, before the template is put around it. */
  function SummaryMarkup(summary: string): (r: string)
    ensures Avoids(r, {'\n'})
  {
    var lines := Breaks(Bullets(Sub, Bullets(Top, Bold(summary))));
    var wrapped := WrapItems(lines);
    var joined := ReplaceSpaced(wrapped, JoinLists, "");
    var before := ReplaceSpaced(joined, BreakBeforeList, "<ul>");
    CleanupTextsOneLine();
    ReplaceSpaced(before, BreakAfterList, "</ul>")
  }

  // ---------------------------------------------------------------------------
  // Text without markup

  /** Every `<` in `s` opens a `<b`, as after the newline stage on text without `<`. */
  predicate OnlyBreakTags(s: string) {
    forall k | 0 <= k < |s| && s[k] == '<' :: k + 1 < |s| && s[k + 1] == 'b'
  }

  lemma {:induction false} BreaksOnlyBreakTags(s: string)
    requires Avoids(s, {'<'})
    ensures OnlyBreakTags(Breaks(s))
    decreases |s|
  {
    if s != [] {
      var head := if s[0] == '\n' then "<br>" else [s[0]];
      var rest := Breaks(s[1..]);
      BreaksOnlyBreakTags(s[1..]);
      var t := head + rest;
      forall k | 0 <= k < |t| && t[k] == '<' ensures k + 1 < |t| && t[k + 1] == 'b' {
        if k >= |head| {
          assert t[k] == rest[k - |head|];
          assert t[k + 1] == rest[k + 1 - |head|];
        }
      }
    }
  }

  lemma OnlyBreakTagsNoPair(s: string, c: char)
    requires OnlyBreakTags(s) && c != 'b'
    ensures NoPair(s, '<', c)
  {
  }

  /** A summary without `*` and `<` comes out with its newlines turned into `<br>` and nothing else changed. */
  lemma PlainSummaryGainsOnlyBreaks(s: string)
    requires Avoids(s, {'*'}) && Avoids(s, {'<'})
    ensures SummaryMarkup(s) == Breaks(s)
  {
    BoldPlain(s);
    BulletsPlain(Top, s);
    BulletsPlain(Sub, s);
    var t := Breaks(s);
    BreaksOnlyBreakTags(s);
    OnlyBreakTagsNoPair(t, 'l');
    OnlyBreakTagsNoPair(t, '/');
    OnlyBreakTagsNoPair(t, 'u');
    WrapItemsPlain(t);
    ReplaceSpacedPlain(t, JoinLists, "", 0, '/');
    ReplaceSpacedPlain(t, BreakBeforeList, "<ul>", 1, 'u');
    ReplaceSpacedPlain(t, BreakAfterList, "</ul>", 0, '/');
  }

  /** A single line without `*` and `<` passes through the markup stages unchanged. */
  lemma PlainLineUnchanged(s: string)
    requires Avoids(s, {'*'}) && Avoids(s, {'<'}) && Avoids(s, {'\n'})
    ensures SummaryMarkup(s) == s
  {
    PlainSummaryGainsOnlyBreaks(s);
  }
}

/**
 * What the markup stages of `formatSummaryHTML` (server/routes/shareRoutes.js,
 * lines 8-24) make of a top-level bullet followed by a sub-bullet. The
 * sub-bullet rule at line 14 gives `<ul><li>y</li></ul>`, so the wrapping
 * stage at line 19 finds no item after the `<br>` and leaves the top-level
 * `<li>x</li>` unwrapped; the cleanup at line 23 then drops the `<br>`. The
 * top-level item ends up outside any list.
 */
module NestedBullets {
  import opened Wrappers
  import opened JsText
  import opened Markup
  import opened BulletLists

  /** A concatenation is one line exactly when both parts are. */
  lemma OneLineConcat(a: string, b: string)
    ensures OneLine(a + b) <==> OneLine(a) && OneLine(b)
  {
    if OneLine(a + b) {
      forall k | 0 <= k < |b| ensures !IsLineTerminator(b[k]) {
        assert b[k] == (a + b)[|a| + k];
      }
      forall k | 0 <= k < |a| ensures !IsLineTerminator(a[k]) {
        assert a[k] == (a + b)[k];
      }
    }
    if OneLine(a) && OneLine(b) {
      forall k | 0 <= k < |a + b| ensures !IsLineTerminator((a + b)[k]) {
        if k >= |a| { assert (a + b)[k] == b[k - |a|]; }
      }
    }
  }

  /** The wrapping stage copies a prefix in which no `<` is followed by `l`. */
  lemma {:induction false} WrapItemsCopies(p: string, rest: string)
    requires p != [] && NoPair(p, '<', 'l') && p[|p| - 1] != '<'
    ensures WrapItems(p + rest) == p + WrapItems(rest)
    decreases |p|
  {
    var s := p + rest;
    assert s[0] == p[0];
    assert !At(s, 0, "<li>") by {
      if |p| >= 2 { assert s[1] == p[1]; }
    }
    if |p| > 1 {
      assert s[1..] == p[1..] + rest;
      NoPairSuffix(p, '<', 'l');
      WrapItemsCopies(p[1..], rest);
      ConsAppend(p, WrapItems(rest));
    } else {
      assert s[1..] == rest;
      assert [p[0]] == p;
    }
  }

  /** A cleanup whose pattern opens with `<c` copies a prefix in which no `<` is followed by `c`. */
  lemma {:induction false} ReplaceSpacedCopies(p: string, rest: string, toks: seq<string>, repl: string, c: char)
    requires toks != [] && |toks[0]| >= 2 && toks[0][0] == '<' && toks[0][1] == c
    requires p != [] && NoPair(p, '<', c) && p[|p| - 1] != '<'
    ensures ReplaceSpaced(p + rest, toks, repl) == p + ReplaceSpaced(rest, toks, repl)
    decreases |p|
  {
    var s := p + rest;
    assert s[0] == p[0];
    assert !At(s, 0, toks[0]) by {
      if |p| >= 2 { assert s[1] == p[1]; }
    }
    if |p| > 1 {
      assert s[1..] == p[1..] + rest;
      NoPairSuffix(p, '<', c);
      ReplaceSpacedCopies(p[1..], rest, toks, repl, c);
      ConsAppend(p, ReplaceSpaced(rest, toks, repl));
    } else {
      assert s[1..] == rest;
      assert [p[0]] == p;
    }
  }

  /** `<ul><li>y</li></ul>`: what the sub-bullet rule makes of `    * y`. */
  function SubList(y: string): string {
    "<ul><li>" + y + "</li></ul>"
  }

  /** Line 12 on `* x`: the item `<li>x</li>`. */
  lemma TopLine(x: string)
    requires ItemText(x)
    ensures OneLine("* " + x) && BulletLine(Top, "* " + x) == "<li>" + x + "</li>"
  {
    OneLineConcat("* ", x);
    assert ("* " + x)[..2] == "* " && ("* " + x)[2..] == x;
  }

  /** Line 12 leaves `    * y` alone; line 14 makes it the sub-list. */
  lemma SubLine(y: string)
    requires ItemText(y)
    ensures OneLine("    * " + y)
    ensures BulletLine(Top, "    * " + y) == "    * " + y
    ensures BulletLine(Sub, "    * " + y) == SubList(y)
    ensures Avoids(SubList(y), {'\n'})
  {
    var line := "    * " + y;
    OneLineConcat("    * ", y);
    assert line[0] == ' ';
    assert line[..6] == "    * " && line[6..] == y;
    assert Avoids(y, {'\n'});
    AvoidsConcat("<ul><li>", y, {'\n'});
    AvoidsConcat("<ul><li>" + y, "</li></ul>", {'\n'});
  }

  /** The two lines hold no `**`, so the bold stage leaves them alone. */
  lemma SourceHasNoBold(x: string, y: string)
    requires ItemText(x) && ItemText(y)
    ensures NoPair("* " + x + "\n" + ("    * " + y), '*', '*')
  {
    StarLineNoPair(x);
    AvoidsNoPair(y, '*', '*');
    NoPairAppend("    * ", y, '*', '*');
    NoPairAppend("* " + x + "\n", "    * " + y, '*', '*');
  }

  /** Line 12 on the two lines. */
  lemma TopStage(x: string, y: string)
    requires ItemText(x) && ItemText(y)
    ensures Bullets(Top, "* " + x + "\n" + ("    * " + y)) == "<li>" + x + "</li>" + ['\n'] + ("    * " + y)
  {
    var top, nested := "* " + x, "    * " + y;
    TopLine(x);
    SubLine(y);
    assert top + "\n" + nested == top + ['\n'] + nested;
    BulletsLine(Top, top, '\n', nested);
    BulletsLastLine(Top, nested);
  }

  /** Line 14 on the two lines. */
  lemma SubStage(x: string, y: string)
    requires ItemText(x) && ItemText(y)
    ensures Bullets(Sub, "<li>" + x + "</li>" + ['\n'] + ("    * " + y)) == "<li>" + x + "</li>" + ['\n'] + SubList(y)
  {
    var nested := "    * " + y;
    SubLine(y);
    ItemOfText(x);
    BulletsLine(Sub, "<li>" + x + "</li>", '\n', nested);
    BulletsLastLine(Sub, nested);
  }

  /** Line 16 on the two lines: the one newline becomes `<br>`. */
  lemma BreakStage(x: string, y: string)
    requires ItemText(x) && ItemText(y)
    ensures Breaks("<li>" + x + "</li>" + ['\n'] + SubList(y)) == "<li>" + x + "</li>" + ("<br>" + SubList(y))
  {
    var item := "<li>" + x + "</li>";
    SubLine(y);
    ItemOfText(x);
    assert item + ['\n'] + SubList(y) == item + ("\n" + SubList(y));
    BreaksJoinStep(item, SubList(y));
  }

  /** The first four stages: the top-level bullet becomes an item, the sub-bullet a list, the newline `<br>`. */
  lemma NestedLines(x: string, y: string)
    requires ItemText(x) && ItemText(y)
    ensures Breaks(Bullets(Sub, Bullets(Top, Bold("* " + x + "\n" + ("    * " + y)))))
         == "<li>" + x + "</li>" + ("<br>" + SubList(y))
  {
    SourceHasNoBold(x, y);
    BoldPlain("* " + x + "\n" + ("    * " + y));
    TopStage(x, y);
    SubStage(x, y);
    BreakStage(x, y);
  }

  /** `<li>y</li></ul>`: the sub-list after its opening `<ul>`. */
  function Tail(y: string): string {
    "<li>" + y + "</li></ul>"
  }

  /** A `</li>` followed by `</ul>` does not end an item: the lookahead fails there. */
  lemma TailAtListEnd(s: string, k: nat)
    requires At(s, k, "</ul>")
    ensures ItemTail(s, k).None?
  {
    var w := s[k..k + 5];
    assert s[k] == w[0] == '<' && s[k + 1] == w[1] == '/';
    assert SkipSpace(s, k) == k;
    assert !At(s, k, "<br>") && !At(s, k, "<li>");
  }

  /** A `</li>` followed by `<br><ul>` does not end an item: after the `<br>` comes no `<li>`. */
  lemma TailAtSubList(s: string, k: nat)
    requires At(s, k, "<br>") && At(s, k + 4, "<ul>")
    ensures ItemTail(s, k).None?
  {
    var w, v := s[k..k + 4], s[k + 4..k + 8];
    assert s[k] == w[0] == '<' && s[k + 1] == w[1] == 'b';
    assert s[k + 4] == v[0] == '<' && s[k + 5] == v[1] == 'u';
    assert SkipSpace(s, k) == k;
    assert SkipSpace(s, k + 4) == k + 4;
    assert !At(s, k + 4, "<li>") && !At(s, k, "<li>");
  }

  /** Where the pieces of `Tail(y)` sit. */
  lemma TailLayout(y: string)
    ensures var t, m := Tail(y), 4 + |y|;
      |t| == m + 10 && t[..4] == "<li>" && t[4..m] == y && t[m..m + 5] == "</li>" && t[m + 5..] == "</ul>"
  {
    assert Tail(y) == "<li>" + y + "</li>" + "</ul>";
  }

  /** No `</li>` in `Tail(y)` ends a match. */
  lemma TailNotClosed(y: string)
    requires ItemText(y)
    ensures forall k | 4 <= k <= |Tail(y)| :: !Closes(Tail(y), k)
    ensures ItemClose(Tail(y), 4).None?
  {
    var t := Tail(y);
    TailLayout(y);
    assert t[0..4] == t[..4];
    forall k | 4 <= k <= |t| ensures !Closes(t, k) {
      SubListNotClosed(t, 0, y, k);
    }
  }

  /** After its first character, `Tail(y)` holds no `<l`. */
  lemma TailHasOneItem(y: string)
    requires ItemText(y)
    ensures NoPair("li>" + y + "</li></ul>", '<', 'l')
  {
    AvoidsNoPair(y, '<', 'l');
    NoPairAppend("li>", y, '<', 'l');
    NoPairAppend("li>" + y, "</li></ul>", '<', 'l');
  }

  /** The wrapping stage leaves `Tail(y)` alone: its item is followed by `</ul>`. */
  lemma WrapTail(y: string)
    requires ItemText(y)
    ensures WrapItems(Tail(y)) == Tail(y)
  {
    var t := Tail(y);
    TailNotClosed(y);
    assert t[..4] == "<li>";
    var u := t[1..];
    assert u == "li>" + y + "</li></ul>";
    TailHasOneItem(y);
    WrapItemsPlain(u);
    assert [t[0]] + u == t;
  }

  /** The text after the first four stages: the item, `<br>`, and the sub-list. */
  function Lines(x: string, y: string): string {
    "<li>" + x + "</li>" + ("<br>" + SubList(y))
  }

  /** Where the pieces of `Lines(x, y)` sit. */
  lemma LinesLayout(x: string, y: string)
    ensures var s, m := Lines(x, y), 4 + |x|;
      s[4..m] == x && s[m..m + 5] == "</li>" && s[m + 5..m + 13] == "<br><ul>" &&
      s[m + 13..] == Tail(y) && |s| == m + 13 + |Tail(y)|
  {
    var s, m := Lines(x, y), 4 + |x|;
    assert s == "<li>" + x + "</li>" + "<br><ul>" + Tail(y);
  }

  /** In the first item and the `<br><ul>` after it no `</li>` ends a match: the sub-list follows, not an item. */
  lemma HeadNotClosed(s: string, x: string, k: nat)
    requires Avoids(x, {'<'}) && 4 + |x| + 13 <= |s|
    requires s[4..4 + |x|] == x && s[4 + |x|..4 + |x| + 5] == "</li>"
    requires s[4 + |x| + 5..4 + |x| + 9] == "<br>" && s[4 + |x| + 9..4 + |x| + 13] == "<ul>"
    requires 4 <= k < 4 + |x| + 13
    ensures !Closes(s, k)
  {
    var m := 4 + |x|;
    if k < m {
      assert !At(s, k, "</li>") by { assert s[k] == x[k - 4]; }
    } else if k == m {
      TailAtSubList(s, m + 5);
    } else if k < m + 5 {
      assert !At(s, k, "</li>") by { assert s[k] == "</li>"[k - m]; }
    } else if k < m + 9 {
      assert !At(s, k, "</li>") by {
        assert s[k] == "<br>"[k - m - 5];
        if k == m + 5 { assert s[k + 1] == 'b'; }
      }
    } else {
      assert !At(s, k, "</li>") by {
        assert s[k] == "<ul>"[k - m - 9];
        if k == m + 9 { assert s[k + 1] == 'u'; }
      }
    }
  }

  /** Inside the sub-list no `</li>` ends a match: its one item is followed by `</ul>`. */
  lemma SubListNotClosed(s: string, n: nat, y: string, k: nat)
    requires Avoids(y, {'<'}) && n + 4 + |y| + 10 == |s|
    requires s[n..n + 4] == "<li>" && s[n + 4..n + 4 + |y|] == y
    requires s[n + 4 + |y|..n + 4 + |y| + 5] == "</li>" && s[n + 4 + |y| + 5..] == "</ul>"
    requires n <= k <= |s|
    ensures !Closes(s, k)
  {
    var m := n + 4 + |y|;
    if k < m {
      SubItemNotAt(s, n, y, k);
    } else if k == m {
      TailAtListEnd(s, m + 5);
    } else {
      SubListEndNotAt(s, m, k);
    }
  }

  /** No `</li>` starts in the sub-list's `<li>` or in its text. */
  lemma SubItemNotAt(s: string, n: nat, y: string, k: nat)
    requires Avoids(y, {'<'}) && n + 4 + |y| + 5 <= |s|
    requires s[n..n + 4] == "<li>" && s[n + 4..n + 4 + |y|] == y
    requires n <= k < n + 4 + |y|
    ensures !At(s, k, "</li>")
  {
    if k < n + 4 {
      var j := if k == n then 1 else 0;
      assert s[k..k + 5][j] == s[n..n + 4][k - n + j] == "<li>"[k - n + j] != "</li>"[j];
    } else {
      assert s[k..k + 5][0] == s[n + 4..n + 4 + |y|][k - n - 4] == y[k - n - 4];
    }
  }

  /** After the first character of the sub-list's closing `</li>`, no `</li>` starts before the end. */
  lemma SubListEndNotAt(s: string, m: nat, k: nat)
    requires m + 10 == |s| && s[m..m + 5] == "</li>" && s[m + 5..] == "</ul>"
    requires m < k <= |s|
    ensures !At(s, k, "</li>")
  {
    if k < m + 5 {
      assert s[k..k + 5][0] == s[m..m + 5][k - m] == "</li>"[k - m] != '<';
    } else if k == m + 5 {
      assert s[k..k + 5] == s[m + 5..] == "</ul>";
    }
  }

  /** Neither `</li>` ends a match: the first is followed by a sub-list, the second by `</ul>`. */
  lemma LinesNotClosed(x: string, y: string)
    requires ItemText(x) && ItemText(y)
    ensures ItemClose(Lines(x, y), 4).None?
  {
    var s, m := Lines(x, y), 4 + |x|;
    var n := m + 13;
    LinesLayout(x, y);
    assert s[n..] == Tail(y);
    TailLayout(y);
    assert s[n..n + 4] == "<li>" && s[n + 4..n + 4 + |y|] == y by {
      assert s[n..n + 4] == Tail(y)[..4] && s[n + 4..n + 4 + |y|] == Tail(y)[4..4 + |y|];
    }
    assert s[n + 4 + |y|..n + 4 + |y| + 5] == "</li>" && s[n + 4 + |y| + 5..] == "</ul>" by {
      assert s[n + 4 + |y|..n + 4 + |y| + 5] == Tail(y)[4 + |y|..4 + |y| + 5];
      assert s[n + 4 + |y| + 5..] == Tail(y)[4 + |y| + 5..];
    }
    assert s[m + 5..m + 9] == "<br>" && s[m + 9..n] == "<ul>" by {
      assert s[m + 5..n] == "<br><ul>";
      assert s[m + 5..m + 9] == s[m + 5..n][..4] && s[m + 9..n] == s[m + 5..n][4..];
    }
    forall k | 4 <= k <= |s| ensures !Closes(s, k) {
      if k < n {
        HeadNotClosed(s, x, k);
      } else {
        SubListNotClosed(s, n, y, k);
      }
    }
  }

  /** After its first character, the head of `Lines(x, y)` holds no `<l`. */
  lemma HeadHasNoItem(x: string)
    requires ItemText(x)
    ensures NoPair("li>" + x + "</li>" + "<br>" + "<ul>", '<', 'l')
  {
    AvoidsNoPair(x, '<', 'l');
    NoPairAppend("li>", x, '<', 'l');
    NoPairAppend("li>" + x, "</li>", '<', 'l');
    NoPairAppend("li>" + x + "</li>", "<br>", '<', 'l');
    NoPairAppend("li>" + x + "</li>" + "<br>", "<ul>", '<', 'l');
  }

  /** The wrapping stage changes nothing: the first item is followed by a sub-list, the second by `</ul>`. */
  lemma LinesNotWrapped(x: string, y: string)
    requires ItemText(x) && ItemText(y)
    ensures WrapItems(Lines(x, y)) == Lines(x, y)
  {
    var s := Lines(x, y);
    var head := "li>" + x + "</li>" + "<br>" + "<ul>";
    LinesNotClosed(x, y);
    assert s[1..] == head + Tail(y);
    HeadHasNoItem(x);
    WrapItemsCopies(head, Tail(y));
    WrapTail(y);
    assert [s[0]] + (head + Tail(y)) == s;
  }

  /** A cleanup copies a character at which its first literal does not start. */
  lemma ReplaceSpacedPasses(p: string, rest: string, toks: seq<string>, repl: string)
    requires toks != [] && toks[0] != [] && p != [] && !At(p + rest, 0, toks[0])
    ensures ReplaceSpaced(p + rest, toks, repl) == [p[0]] + ReplaceSpaced(p[1..] + rest, toks, repl)
  {
    assert (p + rest)[1..] == p[1..] + rest;
  }

  /** Text without `<` between tags without `<b`: no `<b` anywhere. */
  lemma NoBreakAround(a: string, x: string, b: string)
    requires Avoids(x, {'<'}) && NoPair(a, '<', 'b') && NoPair(b, '<', 'b')
    requires a != [] && a[|a| - 1] != '<'
    ensures NoPair(a + x + b, '<', 'b')
  {
    AvoidsNoPair(x, '<', 'b');
    NoPairAppend(a, x, '<', 'b');
    assert (a + x)[|a + x| - 1] != '<' by {
      if x != [] { assert (a + x)[|a + x| - 1] == x[|x| - 1]; }
    }
    NoPairAppend(a + x, b, '<', 'b');
  }

  /** Items and sub-lists of text without `<` hold no `<b`. */
  lemma ItemHasNoBreak(x: string)
    requires Avoids(x, {'<'})
    ensures NoPair("<li>" + x + "</li>", '<', 'b') && NoPair(Tail(x), '<', 'b') && NoPair(SubList(x), '<', 'b')
  {
    NoBreakAround("<li>", x, "</li>");
    NoPairAppend("</li>", "</ul>", '<', 'b');
    NoBreakAround("<li>", x, "</li></ul>");
    NoPairAppend("<ul>", "<li>", '<', 'b');
    NoBreakAround("<ul><li>", x, "</li></ul>");
  }

  /** Line 22 passes over a `</li>`. */
  lemma JoinPassesClose(rest: string)
    ensures ReplaceSpaced("</li>" + rest, JoinLists, "") == "</li>" + ReplaceSpaced(rest, JoinLists, "")
  {
    assert !At("</li>" + rest, 0, JoinLists[0]) by { assert ("</li>" + rest)[2] == 'l'; }
    ReplaceSpacedPasses("</li>", rest, JoinLists, "");
    assert "</li>"[1..] == "/li>";
    ReplaceSpacedCopies("/li>", rest, JoinLists, "", '/');
    ConsAppend("</li>", ReplaceSpaced(rest, JoinLists, ""));
  }

  /** Line 22 passes over a `<br>` after which no `<b` follows. */
  lemma JoinPassesBreak(rest: string)
    requires NoPair(rest, '<', 'b')
    ensures ReplaceSpaced("<br>" + rest, JoinLists, "") == "<br>" + rest
  {
    assert !At("<br>" + rest, 0, JoinLists[0]) by { assert ("<br>" + rest)[1] == 'b'; }
    ReplaceSpacedPasses("<br>", rest, JoinLists, "");
    assert "<br>"[1..] == "br>";
    NoPairAppend("br>", rest, '<', 'b');
    ReplaceSpacedPlain("br>" + rest, JoinLists, "", 1, 'b');
    ConsAppend("<br>", rest);
  }

  /** Line 22 finds no `</ul>` before the `<br>`: the text is unchanged. */
  lemma JoinStage(x: string, y: string)
    requires ItemText(x) && ItemText(y)
    ensures ReplaceSpaced(Lines(x, y), JoinLists, "") == Lines(x, y)
  {
    var head := "<li>" + x;
    var r2 := "<br>" + SubList(y);
    assert Lines(x, y) == head + ("</li>" + r2);
    AvoidsNoPair(x, '<', '/');
    NoPairAppend("<li>", x, '<', '/');
    assert head[|head| - 1] != '<' by {
      if x != [] { assert head[|head| - 1] == x[|x| - 1]; }
    }
    ReplaceSpacedCopies(head, "</li>" + r2, JoinLists, "", '/');
    JoinPassesClose(r2);
    ItemHasNoBreak(y);
    JoinPassesBreak(SubList(y));
  }

  /** The sub-list is `<ul>` then `Tail(y)`. */
  lemma SubListTail(y: string)
    ensures SubList(y) == "<ul>" + Tail(y)
  {
  }

  /** Line 23 on a `<br>` directly followed by `<ul>`. */
  lemma BreakBeforeRun(u: string)
    ensures ReplaceSpaced("<br>" + ("<ul>" + u), BreakBeforeList, "<ul>") == "<ul>" + ReplaceSpaced(u, BreakBeforeList, "<ul>")
  {
    var s := "<br>" + ("<ul>" + u);
    assert s[..4] == "<br>";
    assert s[4..8] == "<ul>";
    assert s[8..] == u;
    MatchSpacedPair(s, 0, "<br>", "", "<ul>");
  }

  /** Line 23 turns the `<br><ul>` into `<ul>`. */
  lemma BreakBeforeStage(x: string, y: string)
    requires ItemText(x) && ItemText(y)
    ensures ReplaceSpaced(Lines(x, y), BreakBeforeList, "<ul>") == "<li>" + x + "</li>" + SubList(y)
  {
    var item := "<li>" + x + "</li>";
    ItemHasNoBreak(x);
    ItemHasNoBreak(y);
    SubListTail(y);
    ReplaceSpacedCopies(item, "<br>" + ("<ul>" + Tail(y)), BreakBeforeList, "<ul>", 'b');
    BreakBeforeRun(Tail(y));
    ReplaceSpacedPlain(Tail(y), BreakBeforeList, "<ul>", 0, 'b');
  }

  /** Line 24 finds no `<br>` left: the text is unchanged. */
  lemma BreakAfterStage(x: string, y: string)
    requires ItemText(x) && ItemText(y)
    ensures ReplaceSpaced("<li>" + x + "</li>" + SubList(y), BreakAfterList, "</ul>") == "<li>" + x + "</li>" + SubList(y)
  {
    var item := "<li>" + x + "</li>";
    assert NoPair(item + SubList(y), '<', 'b') by {
      ItemHasNoBreak(x);
      ItemHasNoBreak(y);
      NoPairAppend(item, SubList(y), '<', 'b');
    }
    ReplaceSpacedPlain(item + SubList(y), BreakAfterList, "</ul>", 1, 'b');
  }

  /** The line break and the sub-bullet's indentation, as one literal and as two. */
  lemma SubBulletBreak()
    ensures "\n" + "    * " == "\n    * "
  {
  }

  /** Regrouping a concatenation of four pieces. */
  lemma Regroup3(a: string, b: string, c: string, d: string)
    ensures a + (b + c) + d == a + b + (c + d)
  {
  }

  /** Regrouping a concatenation of six pieces. */
  lemma Regroup5(a: string, x: string, b: string, c: string, y: string, d: string)
    ensures a + x + b + (c + y + d) == a + x + b + c + y + d
  {
  }

  /** The whole pipeline on the two lines, with the sub-list as one piece. */
  lemma NestedMarkup(x: string, y: string)
    requires ItemText(x) && ItemText(y)
    ensures SummaryMarkup("* " + x + "\n" + ("    * " + y)) == "<li>" + x + "</li>" + SubList(y)
  {
    NestedLines(x, y);
    LinesNotWrapped(x, y);
    JoinStage(x, y);
    BreakBeforeStage(x, y);
    BreakAfterStage(x, y);
  }

  /**
   * A top-level bullet followed by a sub-bullet: the top-level item is left
   * outside any list, and the sub-list follows it directly.
   */
  lemma NestedBulletLeftOutsideList(x: string, y: string)
    requires ItemText(x) && ItemText(y)
    ensures SummaryMarkup("* " + x + "\n    * " + y) == "<li>" + x + "</li>" + "<ul><li>" + y + "</li></ul>"
  {
    var source := "* " + x + "\n    * " + y;
    assert source == "* " + x + "\n" + ("    * " + y) by {
      SubBulletBreak();
      Regroup3("* " + x, "\n", "    * ", y);
    }
    assert SummaryMarkup(source) == "<li>" + x + "</li>" + SubList(y) by {
      NestedMarkup(x, y);
    }
    assert "<li>" + x + "</li>" + SubList(y) == "<li>" + x + "</li>" + "<ul><li>" + y + "</li></ul>" by {
      Regroup5("<li>", x, "</li>", "<ul><li>", y, "</li></ul>");
    }
  }
}

/**
 * What the markup stages of `formatSummaryHTML` (server/routes/shareRoutes.js,
 * lines 8-24) make of a list of top-level bullets: every bullet becomes a list
 * of its own. The wrapping stage at line 19 consumes the `<br>` between two
 * items, so the cleanup at line 22, which needs a `<br>` between `</ul>` and
 * `<ul>`, finds nothing to merge.
 */
module BulletLists {
  import opened Wrappers
  import opened JsText
  import opened Markup
  /** `open + x + close` for every `x`. */
  function Enclose(xs: seq<string>, open: string, close: string): (r: seq<string>)
    ensures |r| == |xs|
    ensures forall i | 0 <= i < |xs| :: r[i] == open + xs[i] + close
  {
    seq(|xs|, i requires 0 <= i < |xs| => open + xs[i] + close)
  }

  /** The text of a bullet that carries no markup of its own. */
  predicate ItemText(x: string) {
    Avoids(x, {'*'}) && Avoids(x, {'<'}) && OneLine(x)
  }

  lemma StarLineNoPair(x: string)
    requires Avoids(x, {'*'})
    ensures NoPair("* " + x, '*', '*') && NoPair("* " + x + "\n", '*', '*')
  {
    AvoidsNoPair(x, '*', '*');
    NoPairAppend("* ", x, '*', '*');
    NoPairAppend("* " + x, "\n", '*', '*');
  }

  /** The bold stage leaves a list of plain bullet lines alone. */
  lemma {:induction false} BoldBulletSource(xs: seq<string>)
    requires |xs| >= 1 && forall i | 0 <= i < |xs| :: ItemText(xs[i])
    ensures Bold(Join(Enclose(xs, "* ", ""), "\n")) == Join(Enclose(xs, "* ", ""), "\n")
  {
    var ls := Enclose(xs, "* ", "");
    StarLineNoPair(xs[0]);
    if |xs| == 1 {
      BoldPlain(ls[0]);
    } else {
      assert Enclose(xs, "* ", "")[1..] == Enclose(xs[1..], "* ", "");
      BoldBulletSource(xs[1..]);
      var p := ls[0] + "\n";
      assert Join(ls, "\n") == p + Join(ls[1..], "\n");
      assert ls[0] == "* " + xs[0] + "";
      assert xs[0] + "" == xs[0];
      BoldSkip(p, Join(ls[1..], "\n"));
    }
  }

  /** The bullet rule applied to every line of a list of lines. */
  function BulletLines(b: Bullet, ls: seq<string>): (r: seq<string>)
    ensures |r| == |ls|
    ensures forall i | 0 <= i < |ls| :: r[i] == BulletLine(b, ls[i])
  {
    seq(|ls|, i requires 0 <= i < |ls| => BulletLine(b, ls[i]))
  }

  /** The bullet stages rewrite newline-joined lines one by one. */
  lemma {:induction false} BulletsJoin(b: Bullet, ls: seq<string>)
    requires |ls| >= 1 && forall i | 0 <= i < |ls| :: OneLine(ls[i])
    ensures Bullets(b, Join(ls, "\n")) == Join(BulletLines(b, ls), "\n")
  {
    if |ls| == 1 {
      BulletsLastLine(b, ls[0]);
    } else {
      var rest := Join(ls[1..], "\n");
      assert Join(ls, "\n") == ls[0] + ['\n'] + rest;
      BulletsLine(b, ls[0], '\n', rest);
      BulletsJoin(b, ls[1..]);
      assert BulletLines(b, ls)[1..] == BulletLines(b, ls[1..]);
    }
  }

  /** One line, a newline and the rest: the line is kept and the newline becomes `<br>`. */
  lemma BreaksJoinStep(x: string, rest: string)
    requires Avoids(x, {'\n'})
    ensures Breaks(x + ("\n" + rest)) == x + ("<br>" + Breaks(rest))
  {
    BreaksAppend(x, "\n" + rest);
    BreaksAppend("\n", rest);
    assert Breaks("\n") == "<br>" by { assert "\n"[1..] == ""; }
  }

  lemma {:induction false} BreaksJoin(ls: seq<string>)
    requires |ls| >= 1 && forall i | 0 <= i < |ls| :: Avoids(ls[i], {'\n'})
    ensures Breaks(Join(ls, "\n")) == Join(ls, "<br>")
  {
    if |ls| > 1 {
      var rest := Join(ls[1..], "\n");
      BreaksJoin(ls[1..]);
      BreaksJoinStep(ls[0], rest);
      JoinCons(ls, "\n");
      JoinCons(ls, "<br>");
    }
  }

  /** `<li>x</li>` for a text `x` without tags. */
  predicate IsItem(item: string) {
    |item| >= 9 && At(item, 0, "<li>") && At(item, |item| - 5, "</li>") &&
    forall k | 4 <= k < |item| - 5 :: item[k] != '<'
  }

  /** `s` begins with `prefix`, stated character by character. */
  predicate Opens(s: string, prefix: string) {
    |prefix| <= |s| && forall k | 0 <= k < |prefix| :: s[k] == prefix[k]
  }

  /** A string that opens with an item shows the item's tags and no `<` between them. */
  lemma ItemShape(s: string, item: string)
    requires IsItem(item) && Opens(s, item)
    ensures At(s, 0, "<li>") && At(s, |item| - 5, "</li>")
    ensures forall k | 4 <= k < |item| - 5 :: s[k] != '<'
  {
    var n := |item|;
    assert s[..4] == item[..4];
    assert s[n - 5..n] == item[n - 5..n];
  }

  /** Alone, an item's match ends at the end of the input. */
  lemma ItemCloseOfLast(item: string)
    requires IsItem(item)
    ensures ItemClose(item, 4) == Some((|item|, |item|))
  {
    var g := |item|;
    ItemShape(item, item);
    assert SkipSpace(item, g) == g;
    assert ItemTail(item, g) == Some(g);
    ItemCloseFinds(item, 4, g - 5, g);
  }

  /** The last item of a run: wrapped on its own, the lookahead meeting the end of the input. */
  lemma WrapLastItem(item: string)
    requires IsItem(item)
    ensures WrapItems(item) == "<ul>" + item + "</ul>"
  {
    var g := |item|;
    ItemCloseOfLast(item);
    WrapItemsStep(item, g, g);
    assert item[..g] == item && item[g..] == [];
  }

  lemma ItemTailBeforeItem(s: string, g: nat)
    requires At(s, g, "<br>") && At(s, g + 4, "<li>")
    ensures ItemTail(s, g) == Some(g + 4)
  {
    assert s[g] == '<' && s[g + 4] == '<';
    assert SkipSpace(s, g) == g;
    assert SkipSpace(s, g + 4) == g + 4;
  }

  /** Where an item, a `<br>` and the next item meet. */
  lemma ItemSeam(item: string, rest: string)
    requires IsItem(item) && At(rest, 0, "<li>")
    ensures var s := item + "<br>" + rest;
      Opens(s, item) && At(s, |item|, "<br>") && At(s, |item| + 4, "<li>")
  {
    var s := item + "<br>" + rest;
    var g := |item|;
    assert s[g..g + 4] == "<br>";
    assert s[g + 4..] == rest;
    assert s[g + 4..g + 8] == rest[..4];
    assert s[..g] == item;
  }

  /** An item whose tail lookahead is known: its match ends at that tail. */
  lemma ItemCloseOfOpening(s: string, item: string, e: nat)
    requires IsItem(item) && Opens(s, item) && ItemTail(s, |item|) == Some(e)
    ensures ItemClose(s, 4) == Some((|item|, e))
  {
    ItemShape(s, item);
    ItemCloseFinds(s, 4, |item| - 5, e);
  }

  /** At the seam, the lookahead after the item passes the `<br>` and stops at the next item. */
  lemma SeamTail(item: string, rest: string)
    requires IsItem(item) && At(rest, 0, "<li>")
    ensures Opens(item + "<br>" + rest, item)
    ensures ItemTail(item + "<br>" + rest, |item|) == Some(|item| + 4)
  {
    ItemSeam(item, rest);
    ItemTailBeforeItem(item + "<br>" + rest, |item|);
  }

  /** Before a `<br>` and another item, an item's match takes in the `<br>`. */
  lemma ItemCloseBeforeItem(item: string, rest: string)
    requires IsItem(item) && At(rest, 0, "<li>")
    ensures ItemClose(item + "<br>" + rest, 4) == Some((|item|, |item| + 4))
  {
    var s := item + "<br>" + rest;
    assert Opens(s, item) && ItemTail(s, |item|) == Some(|item| + 4) by {
      SeamTail(item, rest);
    }
    ItemCloseOfOpening(s, item, |item| + 4);
  }

  /** An item followed by `<br>` and another item: wrapped alone, the `<br>` dropped. */
  lemma WrapItemBeforeItem(item: string, rest: string)
    requires IsItem(item) && At(rest, 0, "<li>")
    ensures WrapItems(item + "<br>" + rest) == "<ul>" + item + "</ul>" + WrapItems(rest)
  {
    var s := item + "<br>" + rest;
    var g := |item|;
    ItemCloseBeforeItem(item, rest);
    assert s[..g] == item && s[g + 4..] == rest;
    assert At(s, 0, "<li>") by { ItemSeam(item, rest); ItemShape(s, item); }
    WrapItemsStep(s, g, g + 4);
  }

  lemma JoinStartsWith(ys: seq<string>, sep: string)
    requires |ys| >= 1
    ensures |ys[0]| <= |Join(ys, sep)| && Join(ys, sep)[..|ys[0]|] == ys[0]
  {
    if |ys| > 1 {
      assert Join(ys, sep) == ys[0] + (sep + Join(ys[1..], sep));
    }
  }

  /** Items separated by `<br>` each get a `<ul>` of their own: siblings are not merged. */
  lemma {:induction false} WrapItemsSeparately(items: seq<string>)
    requires |items| >= 1 && forall i | 0 <= i < |items| :: IsItem(items[i])
    ensures WrapItems(Join(items, "<br>")) == Join(Enclose(items, "<ul>", "</ul>"), "")
  {
    var lists := Enclose(items, "<ul>", "</ul>");
    if |items| == 1 {
      WrapLastItem(items[0]);
    } else {
      var rest := Join(items[1..], "<br>");
      assert WrapItems(rest) == Join(lists[1..], "") by {
        assert lists[1..] == Enclose(items[1..], "<ul>", "</ul>");
        WrapItemsSeparately(items[1..]);
      }
      assert At(rest, 0, "<li>") by {
        JoinStartsWith(items[1..], "<br>");
        assert items[1][..4] == "<li>";
      }
      assert WrapItems(Join(items, "<br>")) == lists[0] + WrapItems(rest) by {
        JoinCons(items, "<br>");
        WrapItemBeforeItem(items[0], rest);
      }
      assert Join(lists, "") == lists[0] + "" + Join(lists[1..], "");
    }
  }

  lemma ListPieceNoBreak(x: string)
    requires Avoids(x, {'<'})
    ensures NoPair("<ul>" + ("<li>" + x + "</li>") + "</ul>", '<', 'b')
  {
    AvoidsNoPair(x, '<', 'b');
    NoPairAppend("<li>", x, '<', 'b');
    NoPairAppend("<li>" + x, "</li>", '<', 'b');
    NoPairAppend("<ul>", "<li>" + x + "</li>", '<', 'b');
    NoPairAppend("<ul>" + ("<li>" + x + "</li>"), "</ul>", '<', 'b');
  }

  lemma {:induction false} ListsNoBreak(xs: seq<string>)
    requires |xs| >= 1 && forall i | 0 <= i < |xs| :: Avoids(xs[i], {'<'})
    ensures NoPair(Join(Enclose(Enclose(xs, "<li>", "</li>"), "<ul>", "</ul>"), ""), '<', 'b')
  {
    var lists := Enclose(Enclose(xs, "<li>", "</li>"), "<ul>", "</ul>");
    ListPieceNoBreak(xs[0]);
    if |xs| > 1 {
      assert lists[1..] == Enclose(Enclose(xs[1..], "<li>", "</li>"), "<ul>", "</ul>");
      ListsNoBreak(xs[1..]);
      assert Join(lists, "") == lists[0] + Join(lists[1..], "");
      NoPairAppend(lists[0], Join(lists[1..], ""), '<', 'b');
    }
  }

  /** A bullet's text wrapped as `<li>x</li>` is one line, no sub-bullet, and an item for the wrapper. */
  lemma ItemOfText(x: string)
    requires ItemText(x)
    ensures var item := "<li>" + x + "</li>";
      OneLine(item) && Avoids(item, {'\n'}) && BulletLine(Sub, item) == item && IsItem(item)
  {
    var item := "<li>" + x + "</li>";
    var n := |x|;
    forall k | 0 <= k < |item| ensures !IsLineTerminator(item[k]) {
      if k < 4 {
        assert item[k] == "<li>"[k];
      } else if k < 4 + n {
        assert item[k] == x[k - 4];
      } else {
        assert item[k] == "</li>"[k - 4 - n];
      }
    }
    assert item[0] == '<';
    assert item[..4] == "<li>";
    assert item[|item| - 5..|item|] == "</li>";
    forall k | 4 <= k < |item| - 5 ensures item[k] != '<' {
      assert item[k] == x[k - 4];
    }
  }

  /** The first four stages turn the bullet lines into `<br>`-separated items. */
  lemma BulletLinesBecomeItems(xs: seq<string>)
    requires |xs| >= 1 && forall i | 0 <= i < |xs| :: ItemText(xs[i])
    ensures Breaks(Bullets(Sub, Bullets(Top, Bold(Join(Enclose(xs, "* ", ""), "\n")))))
         == Join(Enclose(xs, "<li>", "</li>"), "<br>")
  {
    var src := Enclose(xs, "* ", "");
    var items := Enclose(xs, "<li>", "</li>");
    BoldBulletSource(xs);
    forall i | 0 <= i < |xs| ensures OneLine(src[i]) && BulletLine(Top, src[i]) == items[i] {
      assert src[i] == "* " + xs[i];
      assert src[i][2..] == xs[i];
    }
    BulletsJoin(Top, src);
    assert BulletLines(Top, src) == items;
    forall i | 0 <= i < |xs|
      ensures OneLine(items[i]) && Avoids(items[i], {'\n'}) && BulletLine(Sub, items[i]) == items[i]
    {
      ItemOfText(xs[i]);
    }
    BulletsJoin(Sub, items);
    assert BulletLines(Sub, items) == items;
    BreaksJoin(items);
  }

  /** The three cleanups leave side-by-side lists alone: there is no `<br>` for them to match. */
  lemma CleanupsKeepLists(xs: seq<string>)
    requires |xs| >= 1 && forall i | 0 <= i < |xs| :: Avoids(xs[i], {'<'})
    ensures var out := Join(Enclose(Enclose(xs, "<li>", "</li>"), "<ul>", "</ul>"), "");
      ReplaceSpaced(ReplaceSpaced(ReplaceSpaced(out, JoinLists, ""), BreakBeforeList, "<ul>"), BreakAfterList, "</ul>") == out
  {
    var out := Join(Enclose(Enclose(xs, "<li>", "</li>"), "<ul>", "</ul>"), "");
    ListsNoBreak(xs);
    ReplaceSpacedPlain(out, JoinLists, "", 1, 'b');
    ReplaceSpacedPlain(out, BreakBeforeList, "<ul>", 0, 'b');
    ReplaceSpacedPlain(out, BreakAfterList, "</ul>", 1, 'b');
  }

  /**
   * Consecutive top-level bullets `* x` come out as one `<ul><li>x</li></ul>`
   * per bullet, side by side: the wrapping stage drops the `<br>` between
   * items, so the cleanup at line 22 has no `</ul><br><ul>` to remove.
   */
  lemma BulletListGivesOneListPerItem(xs: seq<string>)
    requires |xs| >= 1 && forall i | 0 <= i < |xs| :: ItemText(xs[i])
    ensures SummaryMarkup(Join(Enclose(xs, "* ", ""), "\n"))
         == Join(Enclose(Enclose(xs, "<li>", "</li>"), "<ul>", "</ul>"), "")
  {
    var items := Enclose(xs, "<li>", "</li>");
    BulletLinesBecomeItems(xs);
    forall i | 0 <= i < |xs| ensures IsItem(items[i]) {
      ItemOfText(xs[i]);
    }
    WrapItemsSeparately(items);
    CleanupsKeepLists(xs);
  }
}

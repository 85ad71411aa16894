/**
 * Recipient parsing and the basic email-shape check of the share route
 * (server/routes/shareRoutes.js).
 */
module Recipients {
  import opened JsText

  /** The `recipients` field of a share request as the JSON body delivers it. */
  datatype RecipientsInput = Absent | Text(text: string) | List(items: seq<string>)

  /** JavaScript truthiness of the field: a missing value and "" are falsy, any array is truthy. */
  predicate Present(input: RecipientsInput) {
    match input
    case Absent => false
    case Text(t) => t != ""
    case List(_) => true
  }

  /** The character class `[,|\n|;]` of the split: comma, pipe, newline, semicolon. */
  const Separators: set<char> := {',', '|', '\n', ';'}

  /** `parseRecipients`: split a string, or take a list, then trim every entry and drop the empty ones. */
  function ParseRecipients(input: RecipientsInput): (r: seq<string>)
    ensures !Present(input) ==> r == []
    ensures forall i | 0 <= i < |r| :: r[i] != "" && IsTrimmed(r[i])
    ensures input.List? ==> |r| <= |input.items|
    ensures input.Text? ==> forall i | 0 <= i < |r| :: Avoids(r[i], Separators)
  {
    match input
    case Absent => []
    case Text(t) =>
      if t == "" then []
      else
        var fields := SplitOn(t, Separators);
        TrimmedFieldsAvoid(fields, Separators);
        NonEmpty(TrimAll(fields))
    case List(items) => NonEmpty(TrimAll(items))
  }

  /** Lists are parsed entry by entry: order is kept and nothing is deduplicated. */
  lemma ParseListAppend(a: seq<string>, b: seq<string>)
    ensures ParseRecipients(List(a + b)) == ParseRecipients(List(a)) + ParseRecipients(List(b))
  {
    assert TrimAll(a + b) == TrimAll(a) + TrimAll(b) by {
      TrimAllAppend(a, b);
    }
    assert NonEmpty(TrimAll(a) + TrimAll(b)) == NonEmpty(TrimAll(a)) + NonEmpty(TrimAll(b)) by {
      NonEmptyAppend(TrimAll(a), TrimAll(b));
    }
  }

  /** The same address listed twice is delivered to twice. */
  lemma ParseListKeepsDuplicates(x: string)
    requires Trim(x) != ""
    ensures ParseRecipients(List([x, x])) == [Trim(x), Trim(x)]
  {
    var t := Trim(x);
    assert TrimAll([x, x]) == [t, t] by {
      TrimAllCons(x, [x]);
      TrimAllCons(x, []);
      assert [x] + [x] == [x, x] && [x] + [] == [x];
    }
    assert NonEmpty([t, t]) == [t, t] by {
      NonEmptyCons(t, [t]);
      NonEmptyCons(t, []);
      assert [t] + [t] == [t, t] && [t] + [] == [t];
    }
  }

  /** A string's recipients are its separator-delimited fields, trimmed, with the blank ones dropped. */
  lemma ParseTextFields(t: string)
    ensures ParseRecipients(Text(t)) == NonEmpty(TrimAll(SplitOn(t, Separators)))
  {
    if t == "" {
      assert SplitOn(t, Separators) == [""];
      BlankFieldDropped();
    }
  }

  /** A string is parsed field by field: a separator cuts it in two, and the order is kept. */
  lemma ParseTextAppend(a: string, c: char, b: string)
    requires c in Separators
    ensures ParseRecipients(Text(a + [c] + b)) == ParseRecipients(Text(a)) + ParseRecipients(Text(b))
  {
    ParseTextFields(a + [c] + b);
    ParseTextFields(a);
    ParseTextFields(b);
    SplitAtSeparator(a, c, b, Separators);
    TrimAllAppend(SplitOn(a, Separators), SplitOn(b, Separators));
    NonEmptyAppend(TrimAll(SplitOn(a, Separators)), TrimAll(SplitOn(b, Separators)));
  }

  /** A string without separators is one recipient, trimmed, or none when it is blank. */
  lemma ParseTextSingle(x: string)
    requires Avoids(x, Separators)
    ensures ParseRecipients(Text(x)) == if AllSpace(x) then [] else [Trim(x)]
  {
    ParseTextFields(x);
    CleanSingle(x);
  }

  /** Addresses joined by any one separator are parsed back, trimmed and without the blank ones, in order. */
  lemma ParseTextJoin(xs: seq<string>, c: char)
    requires |xs| >= 1 && c in Separators
    requires forall i | 0 <= i < |xs| :: Avoids(xs[i], Separators)
    ensures ParseRecipients(Text(Join(xs, [c]))) == NonEmpty(TrimAll(xs))
  {
    ParseTextFields(Join(xs, [c]));
    SplitJoin(xs, c, Separators);
  }

  /** A non-blank field, trimmed and free of separators, is one recipient. */
  lemma ParseTextWord(x: string)
    requires x != [] && IsTrimmed(x) && Avoids(x, Separators)
    ensures ParseRecipients(Text(x)) == [x]
  {
    ParseTextSingle(x);
    assert !AllSpace(x) by { assert !IsSpace(x[0]); }
    TrimmedIsFixedPoint(x);
  }

  /** The same after leading white space that holds no separator, such as the space after `", "`. */
  lemma ParseTextPaddedWord(pad: string, x: string)
    requires AllSpace(pad) && Avoids(pad, Separators)
    requires x != [] && IsTrimmed(x) && Avoids(x, Separators)
    ensures ParseRecipients(Text(pad + x)) == [x]
  {
    AvoidsAppend(pad, x, Separators);
    ParseTextSingle(pad + x);
    assert !AllSpace(pad + x) by { assert (pad + x)[|pad|] == x[0]; }
    TrimPadded(pad, x);
  }

  lemma ThreeFieldsSplit(x: string, c: char, pad: string, y: string, d: char, z: string)
    requires c in Separators && d in Separators
    ensures ParseRecipients(Text(x + [c] + pad + y + [d] + z)) ==
      ParseRecipients(Text(x)) + (ParseRecipients(Text(pad + y)) + ParseRecipients(Text(z)))
  {
    var rest := (pad + y) + [d] + z;
    assert x + [c] + pad + y + [d] + z == x + [c] + rest by {
      Regroup(x + [c], pad, y, [d], z);
    }
    assert ParseRecipients(Text(x + [c] + rest)) == ParseRecipients(Text(x)) + ParseRecipients(Text(rest)) by {
      ParseTextAppend(x, c, rest);
    }
    assert ParseRecipients(Text(rest)) == ParseRecipients(Text(pad + y)) + ParseRecipients(Text(z)) by {
      ParseTextAppend(pad + y, d, z);
    }
  }

  /**
   * Three addresses with two separators, as in `"a@x.com, b@y.com;c@z.com"`
   * (a comma and a space, then a semicolon): they come back in order, with
   * the white space after a separator trimmed away.
   */
  lemma ParseTextMixedSeparators(x: string, c: char, pad: string, y: string, d: char, z: string)
    requires c in Separators && d in Separators
    requires AllSpace(pad) && Avoids(pad, Separators)
    requires x != [] && y != [] && z != []
    requires IsTrimmed(x) && IsTrimmed(y) && IsTrimmed(z)
    requires Avoids(x, Separators) && Avoids(y, Separators) && Avoids(z, Separators)
    ensures ParseRecipients(Text(x + [c] + pad + y + [d] + z)) == [x, y, z]
  {
    ThreeFieldsSplit(x, c, pad, y, d, z);
    ParseTextWord(x);
    ParseTextPaddedWord(pad, y);
    ParseTextWord(z);
  }

  /** Each entry of a list is kept, trimmed, exactly when it is not blank. */
  lemma ParseListSingle(x: string)
    ensures ParseRecipients(List([x])) == if AllSpace(x) then [] else [Trim(x)]
  {
    TrimEmptyIffAllSpace(x);
    assert TrimAll([x]) == [Trim(x)];
  }

  /** A run of `[^\s@]+`: one or more characters that are neither white space nor `@`. */
  predicate IsAtomRun(s: string) {
    |s| > 0 && forall k | 0 <= k < |s| :: !IsSpace(s[k]) && s[k] != '@'
  }

  /**
   * `/^[^\s@]+@[^\s@]+\.[^\s@]+$/.test(s)`: the string splits as
   * atom-run, `@`, atom-run, `.`, atom-run, with `@` at `i` and `.` at `j`.
   */
  predicate IsEmailShape(s: string) {
    exists i, j | 0 < i < j < |s| - 1 ::
      i + 1 < j && s[i] == '@' && s[j] == '.' &&
      IsAtomRun(s[..i]) && IsAtomRun(s[i + 1..j]) && IsAtomRun(s[j + 1..])
  }

  /** The domain part has a dot that is neither its first nor its last character. */
  predicate HasInnerDot(d: string) {
    exists k | 0 < k < |d| - 1 :: d[k] == '.'
  }

  /** The plain-words reading of the email regex: no white space, one `@` with something before it, a dotted domain. */
  predicate PlainEmailShape(s: string) {
    (forall k | 0 <= k < |s| :: !IsSpace(s[k])) &&
    exists i | 0 < i < |s| ::
      s[i] == '@' && (forall k | 0 <= k < |s| && k != i :: s[k] != '@') && HasInnerDot(s[i + 1..])
  }

  /** The email regex accepts exactly the strings of the plain-words shape. */
  lemma EmailShapeCharacterized(s: string)
    ensures IsEmailShape(s) <==> PlainEmailShape(s)
  {
    if IsEmailShape(s) {
      RegexGivesPlainShape(s);
    }
    if PlainEmailShape(s) {
      PlainShapeGivesRegex(s);
    }
  }

  lemma RegexGivesPlainShape(s: string)
    requires IsEmailShape(s)
    ensures PlainEmailShape(s)
  {
    var i, j :| 0 < i < j < |s| - 1 && i + 1 < j && s[i] == '@' && s[j] == '.' &&
      IsAtomRun(s[..i]) && IsAtomRun(s[i + 1..j]) && IsAtomRun(s[j + 1..]);
    var local, host, top := s[..i], s[i + 1..j], s[j + 1..];
    assert forall k | 0 <= k < |s| :: !IsSpace(s[k]) && (k != i ==> s[k] != '@') by {
      forall k | 0 <= k < |s| ensures !IsSpace(s[k]) && (k != i ==> s[k] != '@') {
        if k < i { assert s[k] == local[k]; }
        else if k == i { assert !IsSpace('@'); }
        else if k < j { assert s[k] == host[k - i - 1]; }
        else if k > j { assert s[k] == top[k - j - 1]; }
      }
    }
    assert HasInnerDot(s[i + 1..]) by {
      assert s[i + 1..][j - i - 1] == '.';
    }
  }

  lemma PlainShapeGivesRegex(s: string)
    requires PlainEmailShape(s)
    ensures IsEmailShape(s)
  {
    var i :| 0 < i < |s| && s[i] == '@' && (forall k | 0 <= k < |s| && k != i :: s[k] != '@') &&
      HasInnerDot(s[i + 1..]);
    var d := s[i + 1..];
    var m :| 0 < m < |d| - 1 && d[m] == '.';
    var j := i + 1 + m;
    assert s[j] == '.';
    var local, host, top := s[..i], s[i + 1..j], s[j + 1..];
    assert IsAtomRun(local) by {
      forall k | 0 <= k < |local| ensures !IsSpace(local[k]) && local[k] != '@' {
        assert local[k] == s[k];
      }
    }
    assert IsAtomRun(host) by {
      forall k | 0 <= k < |host| ensures !IsSpace(host[k]) && host[k] != '@' {
        assert host[k] == s[i + 1 + k];
      }
    }
    assert IsAtomRun(top) by {
      forall k | 0 <= k < |top| ensures !IsSpace(top[k]) && top[k] != '@' {
        assert top[k] == s[j + 1 + k];
      }
    }
  }

  /** Sample inputs: one address accepted, three non-addresses refused. */
  lemma EmailShapeExamples()
    ensures IsEmailShape("a@x.com")
    ensures !IsEmailShape("not-an-email")
    ensures !IsEmailShape("a b@x.com")
    ensures !IsEmailShape("")
  {
    var s := "a@x.com";
    assert s[1] == '@' && s[3] == '.';
    assert IsAtomRun(s[..1]) by { assert s[..1] == "a"; }
    assert IsAtomRun(s[2..3]) by { assert s[2..3] == "x"; }
    assert IsAtomRun(s[4..]) by { assert s[4..] == "com"; }
    EmailShapeCharacterized("not-an-email");
    var t := "not-an-email";
    assert forall k | 0 <= k < |t| :: t[k] != '@';
    EmailShapeCharacterized("a b@x.com");
    assert IsSpace("a b@x.com"[1]);
  }
}

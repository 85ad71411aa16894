/**
 * The summarize route (server/routes/summarizeRoutes.js): the input check,
 * the prompt, the classification of the provider's reply, and the local
 * fallback summary used when no provider key is configured.
 */
module Summarize {
  import opened Wrappers
  import opened JsText

  /** A JSON value as `JSON.parse` returns it. Numbers are integers here: fractional numbers are outside the modelled replies. */
  datatype Json =
    | JNull
    | JBool(b: bool)
    | JNum(n: int)
    | JStr(s: string)
    | JArr(items: seq<Json>)
    | JObj(fields: map<string, Json>)

  /** A field of the request body: missing (`undefined`), `null`, or a string. */
  datatype Field = Missing | Null | Str(s: string)

  datatype SummarizeRequest = SummarizeRequest(transcript: Field, prompt: Field)

  /** A reply of the provider: the HTTP status, the raw body, and `JSON.parse` of the body (None when it throws). */
  datatype ProviderReply = ProviderReply(status: int, body: string, parsed: Option<Json>)

  /** The JSON answer of the route: `{summary}`, or an error status with `{error, details?, suggestion?}`. */
  datatype SummarizeResponse =
    | Summary(summary: Json)
    | Failure(status: nat, error: string, details: Option<string>, suggestion: Option<string>)

  const MissingInput := "Provide transcript or prompt"
  const ProviderError := "LLM provider error"
  const KeySuggestion := "Check your GEMINI_API_KEY environment variable"
  const InvalidResponse := "Invalid response from LLM provider"
  const EmptyResponse := "Empty response from LLM provider"
  const InternalError := "Failed to generate summary"

  /** Line 8, `const { x = "" } = req.body`: the default replaces a missing field, not `null`. */
  function WithDefault(f: Field): (r: Field)
    ensures !r.Missing?
    ensures f.Missing? ==> r == Str("")
    ensures !f.Missing? ==> r == f
  {
    if f.Missing? then Str("") else f
  }

  /** JavaScript truthiness of a field. */
  predicate Truthy(f: Field) {
    f.Str? && f.s != ""
  }

  /** `${x}` in a template string. */
  function Interpolate(f: Field): string {
    match f
    case Missing => "undefined"
    case Null => "null"
    case Str(s) => s
  }

  // ---------------------------------------------------------------------------
  // The prompt, lines 11 and 24

  const InstructionLabel := "Instruction: "
  const TranscriptLabel := "\n\nTranscript:\n"

  /** Line 11: the instruction, then the transcript under its label. */
  function UserContent(prompt: string, transcript: string): (r: string)
    ensures StartsWith(r, InstructionLabel) && EndsWith(r, transcript)
    ensures |r| == |InstructionLabel| + |prompt| + |TranscriptLabel| + |transcript|
    ensures r[|InstructionLabel|..|InstructionLabel| + |prompt| + |TranscriptLabel|] == prompt + TranscriptLabel
  {
    var middle := prompt + TranscriptLabel;
    var r := InstructionLabel + middle + transcript;
    Framed(InstructionLabel, middle, transcript);
    assert r[|InstructionLabel|..|InstructionLabel| + |middle|] == middle;
    assert r == InstructionLabel + prompt + TranscriptLabel + transcript;
    r
  }

  const Preamble := "You are an assistant that summarizes meeting transcripts and business documents into clear, structured outputs. Focus on key insights, actionable items, and important details."

  /** Line 24: the text sent to the provider. */
  function ProviderText(content: string): (r: string)
    ensures StartsWith(r, Preamble) && EndsWith(r, "\n\n" + content)
    ensures |r| == |Preamble| + 2 + |content|
  {
    Framed(Preamble, "", "\n\n" + content);
    assert Preamble + "" + ("\n\n" + content) == Preamble + "\n\n" + content;
    Preamble + "\n\n" + content
  }

  /** The first index at or after `i` where `lit` occurs, if any. */
  function Find(s: string, i: nat, lit: string): (r: Option<nat>)
    requires i <= |s|
    ensures r.Some? ==> i <= r.value && At(s, r.value, lit)
    ensures r.Some? ==> forall k | i <= k < r.value :: !At(s, k, lit)
    ensures r.None? ==> forall k | i <= k <= |s| :: !At(s, k, lit)
    decreases |s| - i
  {
    if At(s, i, lit) then Some(i)
    else if i == |s| then None
    else Find(s, i + 1, lit)
  }

  /** Reads the instruction and the transcript back out of a prompt. */
  function SplitUserContent(content: string): Option<(string, string)> {
    if StartsWith(content, InstructionLabel) then
      match Find(content, |InstructionLabel|, TranscriptLabel)
      case Some(k) => Some((content[|InstructionLabel|..k], content[k + |TranscriptLabel|..]))
      case None => None
    else None
  }

  /** The transcript label does not begin inside the instruction (it may only begin where the instruction ends). */
  predicate LabelFree(prompt: string) {
    forall j | 0 <= j < |prompt| :: !At(prompt + TranscriptLabel, j, TranscriptLabel)
  }

  /** Inside the prompt, the label occurs where it occurs in the instruction followed by the label. */
  lemma ContentWindow(prompt: string, transcript: string, j: nat)
    requires j <= |prompt|
    ensures At(UserContent(prompt, transcript), |InstructionLabel| + j, TranscriptLabel) <==>
      At(prompt + TranscriptLabel, j, TranscriptLabel)
  {
    var c := UserContent(prompt, transcript);
    var n, m := |InstructionLabel|, |TranscriptLabel|;
    var w := c[n..n + |prompt| + m];
    assert w == prompt + TranscriptLabel;
    assert c[n + j..n + j + m] == w[j..j + m];
  }

  /** Where the pieces of the prompt sit. */
  lemma ContentLayout(prompt: string, transcript: string)
    ensures var c, n := UserContent(prompt, transcript), |InstructionLabel|;
      StartsWith(c, InstructionLabel) && c[n..n + |prompt|] == prompt &&
      At(c, n + |prompt|, TranscriptLabel) && c[n + |prompt| + |TranscriptLabel|..] == transcript
  {
    var c := UserContent(prompt, transcript);
    var n, m := |InstructionLabel|, |TranscriptLabel|;
    var w := c[n..n + |prompt| + m];
    assert w == prompt + TranscriptLabel;
    assert c[n..n + |prompt|] == w[..|prompt|];
    assert c[n + |prompt|..n + |prompt| + m] == w[|prompt|..];
    assert c == InstructionLabel + prompt + TranscriptLabel + transcript;
  }

  /**
   * The instruction and the transcript are read back from the prompt exactly
   * when the transcript label does not begin inside the instruction; otherwise
   * the instruction read back is cut short at the first label.
   */
  lemma UserContentRoundTrip(prompt: string, transcript: string)
    ensures SplitUserContent(UserContent(prompt, transcript)) == Some((prompt, transcript)) <==> LabelFree(prompt)
  {
    var c := UserContent(prompt, transcript);
    var n := |InstructionLabel|;
    var k := n + |prompt|;
    ContentLayout(prompt, transcript);
    var f := Find(c, n, TranscriptLabel);
    assert f.Some? && f.value <= k;
    if LabelFree(prompt) {
      if f.value < k {
        ContentWindow(prompt, transcript, f.value - n);
        assert false;
      }
    } else {
      var j :| 0 <= j < |prompt| && At(prompt + TranscriptLabel, j, TranscriptLabel);
      ContentWindow(prompt, transcript, j);
      assert f.value <= n + j;
      assert |c[n..f.value]| < |prompt|;
    }
  }


  // ---------------------------------------------------------------------------
  // The provider reply, lines 64-88

  /** `v?.key` */
  function Member(v: Option<Json>, key: string): Option<Json> {
    match v
    case Some(JObj(m)) => if key in m then Some(m[key]) else None
    case _ => None
  }

  /** `v?.[0]`: the first element of an array, the property "0" of an object, the first character of a string. */
  function First(v: Option<Json>): Option<Json> {
    match v
    case Some(JArr(items)) => if |items| > 0 then Some(items[0]) else None
    case Some(JObj(m)) => if "0" in m then Some(m["0"]) else None
    case Some(JStr(s)) => if |s| > 0 then Some(JStr([s[0]])) else None
    case _ => None
  }

  /** Line 81: `data?.candidates?.[0]?.content?.parts?.[0]?.text ?? ""`. */
  function SummaryField(data: Json): (r: Json)
    ensures r != JNull
  {
    var v := Member(First(Member(Member(First(Member(Some(data), "candidates")), "content"), "parts")), "text");
    if v.None? || v == Some(JNull) then JStr("") else v.value
  }

  /** JavaScript truthiness of a JSON value. */
  predicate JsonTruthy(j: Json) {
    match j
    case JNull => false
    case JBool(b) => b
    case JNum(n) => n != 0
    case JStr(s) => s != ""
    case _ => true
  }

  /** `r.ok`: a 2xx status. */
  predicate IsOkStatus(status: int) {
    200 <= status <= 299
  }

  /** Lines 64-88: what the route answers for a reply of the provider. */
  function ClassifyReply(reply: ProviderReply): (r: SummarizeResponse)
    ensures r.Failure? ==> r.status == 502
    ensures !IsOkStatus(reply.status) ==> r == Failure(502, ProviderError, Some(reply.body), Some(KeySuggestion))
    ensures IsOkStatus(reply.status) && reply.parsed.None? ==> r == Failure(502, InvalidResponse, None, None)
    ensures r.Summary? <==>
      IsOkStatus(reply.status) && reply.parsed.Some? && JsonTruthy(SummaryField(reply.parsed.value))
    ensures r.Summary? ==> r.summary == SummaryField(reply.parsed.value)
    ensures IsOkStatus(reply.status) && reply.parsed.Some? && !JsonTruthy(SummaryField(reply.parsed.value)) ==>
      r == Failure(502, EmptyResponse, None, None)
  {
    if !IsOkStatus(reply.status) then Failure(502, ProviderError, Some(reply.body), Some(KeySuggestion))
    else match reply.parsed
      case None => Failure(502, InvalidResponse, None, None)
      case Some(data) =>
        var summary := SummaryField(data);
        if !JsonTruthy(summary) then Failure(502, EmptyResponse, None, None) else Summary(summary)
  }

  /** The reply shape the provider documents: one candidate whose one part carries the text. */
  function CandidateReply(text: string): (r: Json)
    ensures SummaryField(r) == JStr(text)
  {
    JObj(map["candidates" := JArr([JObj(map["content" := JObj(map["parts" := JArr([JObj(map["text" := JStr(text)])])])])])])
  }

  /** A successful reply of the documented shape yields its text, or "Empty response" when the text is "". */
  lemma CandidateReplyClassified(status: int, body: string, text: string)
    requires IsOkStatus(status)
    ensures ClassifyReply(ProviderReply(status, body, Some(CandidateReply(text))))
         == if text == "" then Failure(502, EmptyResponse, None, None) else Summary(JStr(text))
  {
  }

  /** A parsed reply without the text field (an error object, say) is an empty response. */
  lemma MissingTextIsEmpty(status: int, body: string, data: Json)
    requires IsOkStatus(status)
    requires data.JObj? && "candidates" !in data.fields
    ensures ClassifyReply(ProviderReply(status, body, Some(data))) == Failure(502, EmptyResponse, None, None)
  {
  }

  // ---------------------------------------------------------------------------
  // The fallback, lines 92-95

  /** `s.split(/\n+/)`: the fields between runs of newlines; a leading or trailing run gives an empty field. */
  function SplitLineRuns(s: string): (r: seq<string>)
    ensures |r| >= 1
    ensures forall i | 0 <= i < |r| :: Avoids(r[i], {'\n'})
    decreases |s|
  {
    if s == [] then [""]
    else
      var rest := SplitLineRuns(s[1..]);
      if s[0] == '\n' then
        if |s| > 1 && s[1] == '\n' then rest else [""] + rest
      else
        var first := [s[0]] + rest[0];
        assert Avoids(first, {'\n'}) by {
          forall k | 0 <= k < |first| ensures first[k] != '\n' {
            if k > 0 { assert first[k] == rest[0][k - 1]; }
          }
        }
        [first] + rest[1..]
  }

  const FallbackLabel := "Fallback summary (no LLM key):\n\n"
  const FallbackLineLimit := 8

  /** Line 92: the trimmed, non-empty lines of the transcript, in order. */
  function TranscriptLines(transcript: string): (r: seq<string>)
    ensures forall i | 0 <= i < |r| :: r[i] != "" && IsTrimmed(r[i]) && Avoids(r[i], {'\n'})
  {
    var fields := SplitLineRuns(transcript);
    TrimmedFieldsAvoid(fields, {'\n'});
    NonEmpty(TrimAll(fields))
  }

  /** Line 93: the lines the fallback keeps, at most eight, from the start. */
  function KeptLines(transcript: string): (r: seq<string>)
    ensures |r| == if |TranscriptLines(transcript)| <= FallbackLineLimit then |TranscriptLines(transcript)| else FallbackLineLimit
    ensures r <= TranscriptLines(transcript)
    ensures |TranscriptLines(transcript)| <= FallbackLineLimit ==> r == TranscriptLines(transcript)
  {
    var lines := TranscriptLines(transcript);
    if |lines| <= FallbackLineLimit then lines else lines[..FallbackLineLimit]
  }

  /** Lines 92-94: the label, then the kept lines joined by newlines. */
  function FallbackSummary(transcript: string): (r: string)
    ensures StartsWith(r, FallbackLabel)
  {
    FallbackLabel + Join(KeptLines(transcript), "\n")
  }

  /** The fallback body splits back on newlines into exactly the kept lines; with none it is just the label. */
  lemma FallbackBodyRoundTrip(transcript: string)
    ensures KeptLines(transcript) == [] ==> FallbackSummary(transcript) == FallbackLabel
    ensures KeptLines(transcript) != [] ==>
      SplitOn(FallbackSummary(transcript)[|FallbackLabel|..], {'\n'}) == KeptLines(transcript)
  {
    var kept := KeptLines(transcript);
    var r := FallbackSummary(transcript);
    assert r[|FallbackLabel|..] == Join(kept, "\n");
    if kept != [] {
      SplitJoin(kept, '\n', {'\n'});
    } else {
      assert r == FallbackLabel + "";
    }
  }

  /** An empty transcript yields the label alone. */
  lemma EmptyTranscriptFallback()
    ensures FallbackSummary("") == FallbackLabel
  {
    assert SplitLineRuns("") == [""];
    assert TrimAll([""]) == [Trim("")];
    assert Trim("") == "";
    assert NonEmpty([""]) == [];
  }

  lemma {:induction false} SplitLineRunsField(x: string, rest: string)
    requires Avoids(x, {'\n'})
    ensures SplitLineRuns(x + rest) == [x + SplitLineRuns(rest)[0]] + SplitLineRuns(rest)[1..]
    decreases |x|
  {
    if x != [] {
      assert (x + rest)[0] == x[0] && (x + rest)[1..] == x[1..] + rest;
      SplitLineRunsField(x[1..], rest);
      assert [x[0]] + (x[1..] + SplitLineRuns(rest)[0]) == x + SplitLineRuns(rest)[0];
    } else {
      var r := SplitLineRuns(rest);
      assert x + rest == rest && x + r[0] == r[0];
      assert [r[0]] + r[1..] == r;
    }
  }

  /** Non-empty lines joined by single newlines split back into those lines. */
  lemma {:induction false} SplitLineRunsJoin(ls: seq<string>)
    requires |ls| >= 1 && forall i | 0 <= i < |ls| :: ls[i] != "" && Avoids(ls[i], {'\n'})
    ensures SplitLineRuns(Join(ls, "\n")) == ls
  {
    if |ls| == 1 {
      SplitLineRunsField(ls[0], "");
      assert ls[0] + "" == ls[0];
    } else {
      var tail := Join(ls[1..], "\n");
      SplitLineRunsJoin(ls[1..]);
      JoinHead(ls[1..], "\n");
      assert tail[0] == ls[1][0] != '\n';
      assert ("\n" + tail)[1..] == tail;
      assert SplitLineRuns("\n" + tail) == [""] + ls[1..];
      assert Join(ls, "\n") == ls[0] + ("\n" + tail);
      SplitLineRunsField(ls[0], "\n" + tail);
      assert ls[0] + "" == ls[0];
    }
  }

  lemma JoinHead(ys: seq<string>, sep: string)
    requires |ys| >= 1 && ys[0] != ""
    ensures Join(ys, sep) != "" && Join(ys, sep)[0] == ys[0][0]
  {
    if |ys| > 1 {
      assert Join(ys, sep) == ys[0] + (sep + Join(ys[1..], sep));
    }
  }

  lemma {:induction false} NonEmptyKeeps(xs: seq<string>)
    requires forall i | 0 <= i < |xs| :: xs[i] != ""
    ensures NonEmpty(xs) == xs
  {
    if xs != [] {
      NonEmptyKeeps(xs[1..]);
    }
  }

  /** Trimming and dropping blank fields works field by field. */
  lemma CleanCons(x: string, t: seq<string>)
    ensures NonEmpty(TrimAll([x] + t)) == NonEmpty(TrimAll([x])) + NonEmpty(TrimAll(t))
  {
    TrimAllAppend([x], t);
    NonEmptyAppend(TrimAll([x]), TrimAll(t));
  }

  /** Two field lists with the same first field and the same cleaned rest clean to the same lines. */
  lemma CleanAgree(p: seq<string>, q: seq<string>)
    requires |p| >= 1 && |q| >= 1 && p[0] == q[0]
    requires NonEmpty(TrimAll(p[1..])) == NonEmpty(TrimAll(q[1..]))
    ensures NonEmpty(TrimAll(p)) == NonEmpty(TrimAll(q))
  {
    assert [p[0]] + p[1..] == p && [q[0]] + q[1..] == q;
    CleanCons(p[0], p[1..]);
    CleanCons(q[0], q[1..]);
  }

  /**
   * `split(/\n+/)` and a split at every single newline differ only in empty
   * fields: the first fields agree, and so do the rest once trimmed and
   * filtered.
   */
  lemma {:induction false} LineRunsAgree(s: string)
    ensures SplitLineRuns(s)[0] == SplitOn(s, {'\n'})[0]
    ensures NonEmpty(TrimAll(SplitLineRuns(s)[1..])) == NonEmpty(TrimAll(SplitOn(s, {'\n'})[1..]))
    decreases |s|
  {
    if s != [] {
      LineRunsAgree(s[1..]);
      var runs, fields := SplitLineRuns(s[1..]), SplitOn(s[1..], {'\n'});
      if s[0] == '\n' {
        assert SplitOn(s, {'\n'})[1..] == fields;
        assert [fields[0]] + fields[1..] == fields;
        CleanCons(fields[0], fields[1..]);
        if |s| > 1 && s[1] == '\n' {
          assert fields[0] == "" by {
            assert s[1..][0] == '\n';
          }
          BlankFieldDropped();
        } else {
          assert SplitLineRuns(s)[1..] == runs;
          assert [runs[0]] + runs[1..] == runs;
          CleanCons(runs[0], runs[1..]);
        }
      } else {
        assert SplitLineRuns(s)[1..] == runs[1..];
        assert SplitOn(s, {'\n'})[1..] == fields[1..];
      }
    }
  }

  /** The fallback's lines are the transcript's newline-separated fields, trimmed, without the blank ones. */
  lemma TranscriptLinesFields(t: string)
    ensures TranscriptLines(t) == NonEmpty(TrimAll(SplitOn(t, {'\n'})))
  {
    LineRunsAgree(t);
    CleanAgree(SplitLineRuns(t), SplitOn(t, {'\n'}));
  }

  /** A newline cuts the transcript in two: the lines of the first part, then those of the second, in order. */
  lemma TranscriptLinesAppend(a: string, b: string)
    ensures TranscriptLines(a + "\n" + b) == TranscriptLines(a) + TranscriptLines(b)
  {
    var nl: set<char> := {'\n'};
    TranscriptLinesFields(a + "\n" + b);
    TranscriptLinesFields(a);
    TranscriptLinesFields(b);
    assert SplitOn(a + "\n" + b, nl) == SplitOn(a, nl) + SplitOn(b, nl) by {
      SplitAtSeparator(a, '\n', b, nl);
    }
    TrimAllAppend(SplitOn(a, nl), SplitOn(b, nl));
    NonEmptyAppend(TrimAll(SplitOn(a, nl)), TrimAll(SplitOn(b, nl)));
  }

  /** A line without a newline is kept trimmed, or dropped when it is blank. */
  lemma TranscriptLinesSingle(x: string)
    requires Avoids(x, {'\n'})
    ensures TranscriptLines(x) == if AllSpace(x) then [] else [Trim(x)]
  {
    assert TranscriptLines(x) == NonEmpty(TrimAll([x])) by {
      TranscriptLinesFields(x);
    }
    CleanSingle(x);
  }

  /** An indented line is kept without its indentation. */
  lemma IndentedLine(pad: string, x: string)
    requires AllSpace(pad) && Avoids(pad, {'\n'})
    requires x != [] && IsTrimmed(x) && Avoids(x, {'\n'})
    ensures TranscriptLines(pad + x) == [x]
  {
    AvoidsAppend(pad, x, {'\n'});
    TranscriptLinesSingle(pad + x);
    assert !AllSpace(pad + x) by {
      assert (pad + x)[|pad|] == x[0];
    }
    TrimPadded(pad, x);
  }

  /**
   * Two indented lines, as in `"  hello\n  world"`: the fallback shows both,
   * trimmed, one per line under the label.
   */
  lemma IndentedTranscript(pad: string, x: string, y: string)
    requires AllSpace(pad) && Avoids(pad, {'\n'})
    requires x != [] && IsTrimmed(x) && Avoids(x, {'\n'})
    requires y != [] && IsTrimmed(y) && Avoids(y, {'\n'})
    ensures TranscriptLines(pad + x + "\n" + (pad + y)) == [x, y]
    ensures FallbackSummary(pad + x + "\n" + (pad + y)) == FallbackLabel + (x + "\n" + y)
  {
    var t := pad + x + "\n" + (pad + y);
    assert TranscriptLines(t) == [x, y] by {
      TranscriptLinesAppend(pad + x, pad + y);
      IndentedLine(pad, x);
      IndentedLine(pad, y);
      assert [x] + [y] == [x, y];
    }
    FallbackOfTwoLines(t, x, y);
  }

  /** A transcript with two lines gives both under the label, one per line. */
  lemma FallbackOfTwoLines(t: string, x: string, y: string)
    requires TranscriptLines(t) == [x, y]
    ensures FallbackSummary(t) == FallbackLabel + (x + "\n" + y)
  {
    assert KeptLines(t) == [x, y];
    assert Join([x, y], "\n") == x + "\n" + y by {
      JoinCons([x, y], "\n");
      assert [x, y][1..] == [y];
    }
  }

  /**
   * A transcript of trimmed, non-empty lines gives its first eight lines under
   * the label: a ten-line transcript loses its last two.
   */
  lemma FallbackOfLines(ls: seq<string>)
    requires |ls| >= 1 && forall i | 0 <= i < |ls| :: ls[i] != "" && IsTrimmed(ls[i]) && Avoids(ls[i], {'\n'})
    ensures FallbackSummary(Join(ls, "\n")) ==
      FallbackLabel + Join(if |ls| <= FallbackLineLimit then ls else ls[..FallbackLineLimit], "\n")
  {
    SplitLineRunsJoin(ls);
    forall i | 0 <= i < |ls| ensures Trim(ls[i]) == ls[i] {
      TrimmedIsFixedPoint(ls[i]);
    }
    assert TrimAll(ls) == ls;
    NonEmptyKeeps(ls);
  }

  // ---------------------------------------------------------------------------
  // The handler, lines 6-99

  /**
   * The POST handler. `apiKey` is the configured provider key ("" when unset);
   * `provider` stands for the HTTP round trip, from the text sent to the
   * reply, None when the request itself fails.
   */
  function HandleSummarize(req: SummarizeRequest, apiKey: string, provider: string -> Option<ProviderReply>): (r: SummarizeResponse)
    ensures r.Failure? ==> r.status == 400 || r.status == 500 || r.status == 502
    ensures r.Failure? && r.status == 400 ==> r.error == MissingInput
    ensures r.Summary? && apiKey == "" ==> r.summary.JStr? && StartsWith(r.summary.s, FallbackLabel)
    ensures r.Summary? ==> JsonTruthy(r.summary)
  {
    var transcript := WithDefault(req.transcript);
    var prompt := WithDefault(req.prompt);
    if !Truthy(transcript) && !Truthy(prompt) then Failure(400, MissingInput, None, None)
    else
      var content := UserContent(Interpolate(prompt), Interpolate(transcript));
      if apiKey != "" then
        match provider(ProviderText(content))
        case None => Failure(500, InternalError, None, None)
        case Some(reply) => ClassifyReply(reply)
      else
        match transcript
        case Str(t) => Summary(JStr(FallbackSummary(t)))
        case _ => Failure(500, InternalError, None, None)
  }

  /** The request is refused with 400 exactly when neither transcript nor prompt is a non-empty string. */
  lemma MissingInputRefused(req: SummarizeRequest, apiKey: string, provider: string -> Option<ProviderReply>)
    ensures HandleSummarize(req, apiKey, provider) == Failure(400, MissingInput, None, None) <==>
      !Truthy(WithDefault(req.transcript)) && !Truthy(WithDefault(req.prompt))
  {
    var r := HandleSummarize(req, apiKey, provider);
    if apiKey != "" && (Truthy(WithDefault(req.transcript)) || Truthy(WithDefault(req.prompt))) {
      var content := UserContent(Interpolate(WithDefault(req.prompt)), Interpolate(WithDefault(req.transcript)));
      match provider(ProviderText(content))
      case None =>
      case Some(reply) => assert r == ClassifyReply(reply);
    }
  }

  /**
   * Without a key the provider is never consulted: the answer is the fallback
   * (or 500 for a `null` transcript), never a 502.
   */
  lemma NoKeyMeansFallback(req: SummarizeRequest, p1: string -> Option<ProviderReply>, p2: string -> Option<ProviderReply>)
    ensures HandleSummarize(req, "", p1) == HandleSummarize(req, "", p2)
    ensures HandleSummarize(req, "", p1).Failure? ==> HandleSummarize(req, "", p1).status != 502
    ensures (Truthy(WithDefault(req.transcript)) || Truthy(WithDefault(req.prompt))) && WithDefault(req.transcript).Str? ==>
      HandleSummarize(req, "", p1) == Summary(JStr(FallbackSummary(WithDefault(req.transcript).s)))
  {
  }

  /** With a key the answer comes from the provider: a summary is the reply's text field, never the fallback. */
  lemma KeyMeansProvider(req: SummarizeRequest, apiKey: string, provider: string -> Option<ProviderReply>)
    requires apiKey != ""
    requires Truthy(WithDefault(req.transcript)) || Truthy(WithDefault(req.prompt))
    ensures var sent := ProviderText(UserContent(Interpolate(WithDefault(req.prompt)), Interpolate(WithDefault(req.transcript))));
      var r := HandleSummarize(req, apiKey, provider);
      (provider(sent).None? ==> r == Failure(500, InternalError, None, None)) &&
      (provider(sent).Some? ==> r == ClassifyReply(provider(sent).value)) &&
      (r.Summary? ==> provider(sent).Some? && r.summary == SummaryField(provider(sent).value.parsed.value))
  {
  }
}

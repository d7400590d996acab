/** The boundary to the external `claude` agent (devconfig-cli
    `agent_guide/agents/runner.py`). The agent process is a function from
    prompt to reply, `json.loads` is a partial parse function and pydantic
    validation of the parsed payload is a partial decode function; every
    operation reports its result together with the prompts it sent. */
module Runner {
  import opened Wrappers
  import opened Text
  import opened Models

  /** What the agent process returned. */
  datatype AgentReply = AgentReply(returnCode: int, stdout: string, stderr: string)

  /** A file sent to discovery: its repo-relative path and its first
      characters. */
  datatype FilePreview = FilePreview(path: string, head: string)

  /** The format instruction sets the generation prompt can carry. */
  datatype FormatKind = ClaudeFormat | CursorFormat | WindsurfFormat

  /** A request to the agent. Only what the code interpolates is modelled;
      the fixed template wording is not. */
  datatype Prompt =
    | Discovery(previews: seq<FilePreview>)
    | Extraction(filePath: string, content: string)
    | DedupCheck(newId: string, newContent: string, existing: seq<(string, string)>)
    | Generation(format: string, blocks: seq<Block>, instructions: FormatKind)
    | FixJson(text: string)

  /** Why an agent call failed: the process exited non-zero, the answer was
      not JSON even after the corrective request, or the JSON did not have
      the expected shape. */
  datatype AgentError =
    | AgentUnavailable(stderr: string)
    | MalformedResponse(text: string)
    | InvalidPayload

  /** An agent-call outcome and every prompt sent to the agent, in order. */
  datatype Run<T> = Run(result: Result<T, AgentError>, calls: seq<Prompt>)

  /** `_run_claude`: one agent request; a non-zero exit is an error, a
      successful answer is whitespace-stripped. */
  function RunAgent(agent: Prompt -> AgentReply, prompt: Prompt): (r: Run<string>)
    ensures r.calls == [prompt]
    ensures r.result.Failure? <==> agent(prompt).returnCode != 0
    ensures r.result.Failure? ==> r.result.error == AgentUnavailable(agent(prompt).stderr)
    ensures r.result.Success? ==> r.result.value == Strip(agent(prompt).stdout)
    ensures r.result.Success? ==> Trimmed(r.result.value)
  {
    var reply := agent(prompt);
    if reply.returnCode != 0 then Run(Failure(AgentUnavailable(reply.stderr)), [prompt])
    else Run(Success(Strip(reply.stdout)), [prompt])
  }

  const JsonFence: string := "```json"
  const Fence: string := "```"

  /** The maximum distance from an opening plain fence to the end of its
      line for that line to be skipped as an info string. */
  const InfoLineLimit: int := 15

  /** The text between `start` and the next closing fence, stripped; the
      whole text when no fence closes. */
  function FencedBody(text: string, start: nat): (r: string)
    ensures |r| <= |text|
    ensures r != text ==> Trimmed(r)
  {
    var end := FindFrom(text, Fence, start);
    if end != -1 then Strip(text[start..end]) else text
  }

  /** Where the body of a plain fence opening just before `afterTicks`
      starts: past the first line when that line ends within the limit. */
  function BodyStart(text: string, afterTicks: nat): nat {
    var newline := FindFrom(text, "\n", afterTicks);
    if newline != -1 && newline - afterTicks < InfoLineLimit then newline + 1 else afterTicks
  }

  /** The fence-removal step of `_parse_json`. A "```json" fence wins over a
      plain one; a fence without a closing "```" leaves the text alone. */
  function StripFence(text: string): (r: string)
    ensures |r| <= |text|
    ensures !Contains(text, Fence) ==> r == text
    ensures r != text ==> Trimmed(r)
  {
    if Contains(text, JsonFence) then
      FencedBody(text, FindFrom(text, JsonFence, 0) + |JsonFence|)
    else if Contains(text, Fence) then
      FencedBody(text, BodyStart(text, FindFrom(text, Fence, 0) + |Fence|))
    else text
  }

  predicate IsBracket(c: char) {
    c == '{' || c == '['
  }

  predicate HasBracket(s: string) {
    '{' in s || '[' in s
  }

  predicate StartsWithBracket(s: string) {
    |s| > 0 && IsBracket(s[0])
  }

  /** The first index at or after `i` holding a brace or bracket, or
      `|s|`. */
  function FirstBracket(s: string, i: nat): (r: nat)
    requires i <= |s|
    ensures i <= r <= |s|
    ensures r < |s| ==> IsBracket(s[r])
    decreases |s| - i
  {
    if i == |s| || IsBracket(s[i]) then i else FirstBracket(s, i + 1)
  }

  /** Nothing before `FirstBracket` is a brace or bracket. */
  lemma {:induction false} FirstBracketIsFirst(s: string, i: nat)
    requires i <= |s|
    ensures forall k :: i <= k < FirstBracket(s, i) ==> !IsBracket(s[k])
    decreases |s| - i
  {
    if i < |s| && !IsBracket(s[i]) {
      FirstBracketIsFirst(s, i + 1);
    }
  }

  /** The JSON-seeking step of `_parse_json`: text not opening with a
      brace or bracket loses everything before the first of either (the
      smaller of the two `find` results that are not -1). */
  function SeekJson(text: string): (r: string)
    ensures |r| <= |text| && r == text[|text| - |r|..]
    ensures !HasBracket(text[..|text| - |r|])
    ensures StartsWithBracket(text) ==> r == text
    ensures !HasBracket(text) ==> r == text
    ensures HasBracket(text) ==> StartsWithBracket(r)
  {
    var start := FirstBracket(text, 0);
    FirstBracketIsFirst(text, 0);
    assert forall k :: 0 <= k < start ==> text[..start][k] == text[k];
    if start == 0 || start == |text| then
      assert text[..0] == [] && text[..|text|] == text;
      text
    else
      text[start..]
  }

  /** Everything `_parse_json` does to a response before `json.loads`:
      the result is a tail of the fence-stripped text that starts at its
      first brace or bracket, and a stripped response with no fence that
      already opens with one (or holds none) is kept whole. */
  function ExtractJsonText(response: string): (r: string)
    ensures |r| <= |response|
    ensures var t := StripFence(Strip(response));
      && |r| <= |t| && r == t[|t| - |r|..]
      && !HasBracket(t[..|t| - |r|])
      && (HasBracket(t) ==> StartsWithBracket(r))
    ensures !Contains(Strip(response), Fence) && StartsWithBracket(Strip(response)) ==> r == Strip(response)
    ensures !Contains(Strip(response), Fence) && !HasBracket(Strip(response)) ==> r == Strip(response)
  {
    SeekJson(StripFence(Strip(response)))
  }

  /** How many characters of the response the corrective prompt quotes. */
  const FixQuoteLimit: nat := 2000

  /** How many characters of the unparseable text the final error quotes. */
  const ErrorQuoteLimit: nat := 500

  /** `_parse_json(response, retry_count)`: parse the extracted text; on
      failure, unless this is already the retry, send one corrective request
      quoting the response and parse its answer the same way. */
  function ParseJson<J>(response: string, retryCount: nat, parse: string -> Option<J>, agent: Prompt -> AgentReply): (r: Run<J>)
    ensures |r.calls| <= (if retryCount == 0 then 1 else 0)
    ensures r.calls != [] ==> r.calls == [FixJson(Prefix(response, FixQuoteLimit))]
    ensures parse(ExtractJsonText(response)).Some? ==> r == Run(Success(parse(ExtractJsonText(response)).value), [])
    ensures parse(ExtractJsonText(response)).None? && retryCount >= 1 ==>
      r == Run(Failure(MalformedResponse(Prefix(ExtractJsonText(response), ErrorQuoteLimit))), [])
    ensures parse(ExtractJsonText(response)).None? && retryCount == 0 ==>
      var fix := FixJson(Prefix(response, FixQuoteLimit));
      var reply := agent(fix);
      var again := ExtractJsonText(Strip(reply.stdout));
      && r.calls == [fix]
      && (reply.returnCode != 0 ==> r.result == Failure(AgentUnavailable(reply.stderr)))
      && (reply.returnCode == 0 && parse(again).Some? ==> r.result == Success(parse(again).value))
      && (reply.returnCode == 0 && parse(again).None? ==>
            r.result == Failure(MalformedResponse(Prefix(again, ErrorQuoteLimit))))
    decreases 1 - retryCount
  {
    var text := ExtractJsonText(response);
    match parse(text)
    case Some(v) => Run(Success(v), [])
    case None =>
      if retryCount >= 1 then Run(Failure(MalformedResponse(Prefix(text, ErrorQuoteLimit))), [])
      else
        var fixed := RunAgent(agent, FixJson(Prefix(response, FixQuoteLimit)));
        match fixed.result
        case Failure(e) => Run(Failure(e), fixed.calls)
        case Success(out) =>
          var again := ParseJson(out, retryCount + 1, parse, agent);
          Run(again.result, fixed.calls + again.calls)
  }

  /** A response the parser cannot read, followed by a corrective answer it
      cannot read either, is a malformed-response error after exactly one
      corrective request. */
  lemma ParseFailsAfterOneRetry<J>(response: string, parse: string -> Option<J>, agent: Prompt -> AgentReply)
    requires parse(ExtractJsonText(response)).None?
    requires agent(FixJson(Prefix(response, FixQuoteLimit))).returnCode == 0
    requires parse(ExtractJsonText(Strip(agent(FixJson(Prefix(response, FixQuoteLimit))).stdout))).None?
    ensures ParseJson(response, 0, parse, agent).result.Failure?
    ensures ParseJson(response, 0, parse, agent).result.error.MalformedResponse?
    ensures ParseJson(response, 0, parse, agent).calls == [FixJson(Prefix(response, FixQuoteLimit))]
  {
  }

  /** A failing agent process during the corrective request is reported as
      such and not retried. */
  lemma ParseRetryAgentFailure<J>(response: string, parse: string -> Option<J>, agent: Prompt -> AgentReply)
    requires parse(ExtractJsonText(response)).None?
    requires agent(FixJson(Prefix(response, FixQuoteLimit))).returnCode != 0
    ensures ParseJson(response, 0, parse, agent) ==
      Run(Failure(AgentUnavailable(agent(FixJson(Prefix(response, FixQuoteLimit))).stderr)),
          [FixJson(Prefix(response, FixQuoteLimit))])
  {
  }

  /** `find` returns an occurrence when nothing before it can start one. */
  lemma FindFirstAt(s: string, pat: string, from: nat, i: nat)
    requires |pat| > 0 && from <= i && OccursAt(s, pat, i)
    requires forall k :: from <= k < i ==> s[k] != pat[0]
    ensures FindFrom(s, pat, from) == i
  {
    OccurrenceStartsWithHead(s, pat);
  }

  /** An occurrence of `pat` begins with the first character of `pat`. */
  lemma OccurrenceStartsWithHead(s: string, pat: string)
    requires |pat| > 0
    ensures forall i :: OccursAt(s, pat, i) ==> s[i] == pat[0]
  {
    forall i | OccursAt(s, pat, i)
      ensures s[i] == pat[0]
    {
      assert s[i..i + |pat|][0] == s[i];
    }
  }

  /** Searching past a prefix is searching the rest, shifted. */
  lemma {:induction false} FindShift(x: string, s: string, pat: string, from: nat)
    requires |pat| > 0
    ensures FindFrom(x + s, pat, |x| + from) ==
      if FindFrom(s, pat, from) == -1 then -1 else |x| + FindFrom(s, pat, from)
    decreases |s| - from
  {
    if from + |pat| <= |s| {
      assert (x + s)[|x| + from..|x| + from + |pat|] == s[from..from + |pat|];
      if s[from..from + |pat|] != pat {
        FindShift(x, s, pat, from + 1);
      }
    }
  }

  /** In `a + (pat + b)`, where `a` cannot start `pat`, the first `pat` is
      the one after `a`. */
  lemma FindAfterClean(a: string, pat: string, b: string)
    requires |pat| > 0 && pat[0] !in a
    ensures FindFrom(a + (pat + b), pat, 0) == |a|
  {
    var s := a + (pat + b);
    assert s[|a|..|a| + |pat|] == pat;
    assert forall k :: 0 <= k < |a| ==> s[k] == a[k];
    FindFirstAt(s, pat, 0, |a|);
  }

  /** Text without a backtick holds no fence of either kind. */
  lemma NoBacktickNoFence(s: string)
    requires '`' !in s
    ensures !Contains(s, Fence) && !Contains(s, JsonFence)
  {
    OccurrenceStartsWithHead(s, Fence);
    OccurrenceStartsWithHead(s, JsonFence);
  }

  /** The "```json" branch of `StripFence` (the opening fence is seven
      characters long). */
  lemma JsonFenceBranch(text: string)
    requires Contains(text, JsonFence)
    ensures StripFence(text) == FencedBody(text, FindFrom(text, JsonFence, 0) + 7)
  {
  }

  /** Where a "```json" fence after `pre` opens. */
  lemma JsonFenceOpen(text: string, pre: string, rest: string)
    requires text == pre + JsonFence + rest
    requires '`' !in pre
    ensures FindFrom(text, JsonFence, 0) == |pre|
  {
    assert text == pre + (JsonFence + rest);
    FindAfterClean(pre, JsonFence, rest);
  }

  /** Where the closing fence after a "```json" fence and `body` is, and
      what lies between. */
  lemma JsonFenceClose(text: string, pre: string, body: string, post: string)
    requires text == pre + JsonFence + body + Fence + post
    requires '`' !in body
    ensures var start := |pre| + 7;
      FindFrom(text, Fence, start) == start + |body| && text[start..start + |body|] == body
  {
    var head := pre + JsonFence;
    assert text == head + (body + (Fence + post));
    FindAfterHead(head, body, Fence, post);
    MiddleSlice(head, body, Fence + post);
  }

  /** A "```json" fence around a body is removed, whatever follows the
      closing fence. */
  lemma JsonFenceUnwraps(text: string, pre: string, body: string, post: string)
    requires text == pre + JsonFence + body + Fence + post
    requires '`' !in pre && '`' !in body
    ensures StripFence(text) == Strip(body)
  {
    var start := |pre| + 7;
    assert FindFrom(text, JsonFence, 0) + 7 == start by {
      JsonFenceOpen(text, pre, body + Fence + post);
    }
    assert FencedBody(text, start) == Strip(body) by {
      JsonFenceClose(text, pre, body, post);
      FencedBodyAt(text, start, body);
    }
    JsonFenceBranch(text);
  }

  /** A "```json" fence that is never closed leaves the text unchanged. */
  lemma UnclosedJsonFenceKept(text: string, pre: string, rest: string)
    requires text == pre + JsonFence + rest
    requires '`' !in pre && '`' !in rest
    ensures StripFence(text) == text
  {
    var start := |pre| + 7;
    assert FindFrom(text, JsonFence, 0) + 7 == start by {
      JsonFenceOpen(text, pre, rest);
    }
    assert FindFrom(text, Fence, start) == -1 by {
      var head := pre + JsonFence;
      assert text == head + rest;
      NoBacktickNoFence(rest);
      FindShift(head, rest, Fence, 0);
    }
    JsonFenceBranch(text);
  }

  /** The plain-fence branch of `StripFence` (a plain fence is three
      characters long). */
  lemma PlainFenceBranch(text: string)
    requires !Contains(text, JsonFence) && Contains(text, Fence)
    ensures StripFence(text) == FencedBody(text, BodyStart(text, FindFrom(text, Fence, 0) + 3))
  {
  }

  /** The plain-fence branch of `StripFence` once the body is known. */
  lemma PlainFenceResult(text: string, start: nat, body: string)
    requires !Contains(text, JsonFence) && Contains(text, Fence)
    requires BodyStart(text, FindFrom(text, Fence, 0) + 3) == start
    requires FencedBody(text, start) == Strip(body)
    ensures StripFence(text) == Strip(body)
  {
    PlainFenceBranch(text);
  }

  /** The body between `start` and the closing fence right after it. */
  lemma FencedBodyAt(text: string, start: nat, body: string)
    requires FindFrom(text, Fence, start) == start + |body|
    requires text[start..start + |body|] == body
    ensures FencedBody(text, start) == Strip(body)
  {
    var end := FindFrom(text, Fence, start);
    assert end != -1 && text[start..end] == body;
  }

  /** Searching from the end of `head`, where the text continues with `a`
      that cannot start `pat`, finds the `pat` right after `a`. */
  lemma FindAfterHead(head: string, a: string, pat: string, b: string)
    requires |pat| > 0 && pat[0] !in a
    ensures FindFrom(head + (a + (pat + b)), pat, |head|) == |head| + |a|
  {
    FindAfterClean(a, pat, b);
    FindShift(head, a + (pat + b), pat, 0);
  }

  /** The middle piece of a three-part concatenation. */
  lemma MiddleSlice(a: string, b: string, c: string)
    ensures (a + (b + c))[|a|..|a| + |b|] == b
  {
    assert (a + (b + c))[|a|..] == b + c;
  }

  /** Where a plain fence around `info`, a newline and `body` opens. */
  lemma PlainFenceOpen(text: string, pre: string, info: string, body: string, post: string)
    requires text == pre + Fence + info + "\n" + body + Fence + post
    requires '`' !in pre
    ensures FindFrom(text, Fence, 0) == |pre|
  {
    var tail := info + "\n" + body + Fence + post;
    assert text == pre + (Fence + tail);
    FindAfterClean(pre, Fence, tail);
  }

  /** Where the body of a plain fence around `info`, a newline and `body`
      starts: after the newline exactly when `info` is short. */
  lemma PlainFenceInfo(text: string, pre: string, info: string, body: string, post: string)
    requires text == pre + Fence + info + "\n" + body + Fence + post
    requires '\n' !in info
    ensures BodyStart(text, |pre| + 3) ==
      if |info| < InfoLineLimit then |pre| + 3 + |info| + 1 else |pre| + 3
  {
    var head := pre + Fence;
    var rest := body + Fence + post;
    assert text == head + (info + ("\n" + rest));
    FindAfterHead(head, info, "\n", rest);
  }

  /** Where a plain fence around `info`, a newline and `body` closes, and
      what lies between, counted from after the newline. */
  lemma PlainFenceAfterInfo(text: string, pre: string, info: string, body: string, post: string)
    requires text == pre + Fence + info + "\n" + body + Fence + post
    requires '`' !in body
    ensures var start := |pre| + 3 + |info| + 1;
      FindFrom(text, Fence, start) == start + |body| && text[start..start + |body|] == body
  {
    var head := pre + Fence + info + "\n";
    assert text == head + (body + (Fence + post));
    FindAfterHead(head, body, Fence, post);
    MiddleSlice(head, body, Fence + post);
  }

  /** Where a plain fence around `info`, a newline and `body` closes, and
      what lies between, counted from the end of the opening fence. */
  lemma PlainFenceWhole(text: string, pre: string, info: string, body: string, post: string)
    requires text == pre + Fence + info + "\n" + body + Fence + post
    requires '`' !in info && '`' !in body
    ensures var start := |pre| + 3;
      var inner := info + "\n" + body;
      FindFrom(text, Fence, start) == start + |inner| && text[start..start + |inner|] == inner
  {
    var head := pre + Fence;
    var inner := info + "\n" + body;
    assert text == head + (inner + (Fence + post));
    assert '`' !in inner;
    FindAfterHead(head, inner, Fence, post);
    MiddleSlice(head, inner, Fence + post);
  }

  /** A plain fence whose info line is shorter than the limit has that line
      skipped, and the body up to the closing fence is kept. */
  lemma PlainFenceUnwraps(text: string, pre: string, info: string, body: string, post: string)
    requires text == pre + Fence + info + "\n" + body + Fence + post
    requires '`' !in pre && '`' !in info && '`' !in body
    requires '\n' !in info && |info| < InfoLineLimit
    requires !Contains(text, JsonFence)
    ensures StripFence(text) == Strip(body)
  {
    var start := |pre| + 3 + |info| + 1;
    PlainFenceOpen(text, pre, info, body, post);
    assert BodyStart(text, FindFrom(text, Fence, 0) + 3) == start by {
      PlainFenceInfo(text, pre, info, body, post);
    }
    assert FencedBody(text, start) == Strip(body) by {
      PlainFenceAfterInfo(text, pre, info, body, post);
      FencedBodyAt(text, start, body);
    }
    PlainFenceResult(text, start, body);
  }

  /** A plain fence whose first line reaches the limit keeps that line as
      part of the body. */
  lemma LongInfoLineKept(text: string, pre: string, info: string, body: string, post: string)
    requires text == pre + Fence + info + "\n" + body + Fence + post
    requires '`' !in pre && '`' !in info && '`' !in body
    requires '\n' !in info && |info| >= InfoLineLimit
    requires !Contains(text, JsonFence)
    ensures StripFence(text) == Strip(info + "\n" + body)
  {
    var start := |pre| + 3;
    PlainFenceOpen(text, pre, info, body, post);
    assert BodyStart(text, FindFrom(text, Fence, 0) + 3) == start by {
      PlainFenceInfo(text, pre, info, body, post);
    }
    assert FencedBody(text, start) == Strip(info + "\n" + body) by {
      PlainFenceWhole(text, pre, info, body, post);
      FencedBodyAt(text, start, info + "\n" + body);
    }
    PlainFenceResult(text, start, info + "\n" + body);
  }

  /** A response whose stripped text is a "```json" fence around an object
      or array parses exactly as that object or array alone would. */
  lemma FencedJsonParsesDirectly<J>(response: string, pre: string, body: string, post: string,
                                    parse: string -> Option<J>, agent: Prompt -> AgentReply)
    requires Strip(response) == pre + JsonFence + body + Fence + post
    requires '`' !in pre && '`' !in body
    requires StartsWithBracket(Strip(body))
    ensures ExtractJsonText(response) == ExtractJsonText(Strip(body)) == Strip(body)
    ensures parse(Strip(body)).Some? ==>
      ParseJson(response, 0, parse, agent) == Run(Success(parse(Strip(body)).value), [])
  {
    JsonFenceUnwraps(Strip(response), pre, body, post);
    var b := Strip(body);
    StripTrimmed(b);
    StripKeepsAbsent(body, '`');
    NoBacktickNoFence(b);
    assert StripFence(b) == b;
    assert SeekJson(b) == b;
  }

  /** The files discovery previews: readable regular files whose name does
      not start with ".git", each cut to its first 500 characters. */
  datatype ScannedFile = ScannedFile(relPath: string, name: string, isFile: bool, text: Option<string>)

  const PreviewChars: nat := 500
  const MaxPreviews: nat := 50

  predicate Previewable(f: ScannedFile) {
    f.isFile && !StartsWith(f.name, ".git") && f.text.Some?
  }

  /** The preview of one readable file: its path and first 500
      characters. */
  function PreviewOf(f: ScannedFile): (p: FilePreview)
    requires f.text.Some?
    ensures p.path == f.relPath && p.head <= f.text.value && |p.head| <= PreviewChars
    ensures |f.text.value| <= PreviewChars ==> p.head == f.text.value
    ensures |f.text.value| > PreviewChars ==> p.head == f.text.value[..PreviewChars]
  {
    FilePreview(f.relPath, Prefix(f.text.value, PreviewChars))
  }

  function Previews(files: seq<ScannedFile>): (r: seq<FilePreview>)
    ensures |r| <= |files|
    ensures forall i :: 0 <= i < |r| ==> |r[i].head| <= PreviewChars
    ensures (exists i :: 0 <= i < |files| && Previewable(files[i])) <==> |r| > 0
  {
    if |files| == 0 then []
    else
      var rest := Previews(files[1..]);
      assert (exists i :: 1 <= i < |files| && Previewable(files[i])) <==> |rest| > 0 by {
        if |rest| > 0 {
          var i :| 0 <= i < |files[1..]| && Previewable(files[1..][i]);
          assert Previewable(files[i + 1]);
        }
      }
      var f := files[0];
      if Previewable(f) then [PreviewOf(f)] + rest
      else rest
  }

  /** The previews of one file: its own when it is previewable, none
      otherwise. */
  lemma PreviewsOne(f: ScannedFile)
    ensures Previews([f]) == if Previewable(f) then [PreviewOf(f)] else []
  {
    assert [f][1..] == [];
  }

  /** Previews keep the order of the walk: those of a concatenation are
      the previews of each part, one after the other. */
  lemma {:induction false} PreviewsAppend(a: seq<ScannedFile>, b: seq<ScannedFile>)
    ensures Previews(a + b) == Previews(a) + Previews(b)
    decreases |a|
  {
    if |a| == 0 {
      assert a + b == b;
    } else {
      assert (a + b)[1..] == a[1..] + b;
      assert (a + b)[0] == a[0];
      PreviewsAppend(a[1..], b);
    }
  }

  /** A preview is sent for a file exactly when the file is previewable. */
  lemma {:induction false} PreviewsMembers(files: seq<ScannedFile>)
    ensures forall f :: f in files && Previewable(f) ==> PreviewOf(f) in Previews(files)
    ensures forall p :: p in Previews(files) ==> exists f :: f in files && Previewable(f) && p == PreviewOf(f)
    decreases |files|
  {
    if |files| > 0 {
      PreviewsMembers(files[1..]);
      forall f | f in files && Previewable(f)
        ensures PreviewOf(f) in Previews(files)
      {
        if f != files[0] {
          assert f in files[1..];
        }
      }
      forall p | p in Previews(files)
        ensures exists f :: f in files && Previewable(f) && p == PreviewOf(f)
      {
        if !(Previewable(files[0]) && p == PreviewOf(files[0])) {
          var f :| f in files[1..] && Previewable(f) && p == PreviewOf(f);
          assert f in files;
        }
      }
    }
  }

  /** The previews the discovery request carries: the first 50. */
  function FirstPreviews(previews: seq<FilePreview>): (r: seq<FilePreview>)
    ensures |r| == if |previews| <= MaxPreviews then |previews| else MaxPreviews
    ensures r <= previews
  {
    previews[..if |previews| <= MaxPreviews then |previews| else MaxPreviews]
  }

  /** What the answer to a prompt decodes to: nothing when the agent
      process fails, when the answer is not JSON even after the corrective
      request, or when the payload does not validate. */
  function Answer<J, T>(prompt: Prompt, agent: Prompt -> AgentReply, parse: string -> Option<J>, decode: J -> Option<T>): Option<T> {
    var reply := agent(prompt);
    if reply.returnCode != 0 then None
    else
      var parsed := ParseJson(Strip(reply.stdout), 0, parse, agent).result;
      if parsed.Failure? then None else decode(parsed.value)
  }

  /** The request-parse-validate sequence every JSON-answering operation
      shares: the request, at most one corrective request, and the
      validated payload or the first error. */
  function Ask<J, T>(prompt: Prompt, agent: Prompt -> AgentReply, parse: string -> Option<J>, decode: J -> Option<T>): (r: Run<T>)
    ensures 1 <= |r.calls| <= 2 && r.calls[0] == prompt
    ensures agent(prompt).returnCode != 0 ==> r == Run(Failure(AgentUnavailable(agent(prompt).stderr)), [prompt])
    ensures r.result.Success? <==> Answer(prompt, agent, parse, decode).Some?
    ensures r.result.Success? ==> r.result.value == Answer(prompt, agent, parse, decode).value
    ensures (r.result.Failure? && agent(prompt).returnCode == 0
             && ParseJson(Strip(agent(prompt).stdout), 0, parse, agent).result.Success?) ==>
      r.result.error == InvalidPayload
  {
    var sent := RunAgent(agent, prompt);
    match sent.result
    case Failure(e) => Run(Failure(e), sent.calls)
    case Success(response) =>
      var parsed := ParseJson(response, 0, parse, agent);
      var calls := sent.calls + parsed.calls;
      match parsed.result
      case Failure(e) => Run(Failure(e), calls)
      case Success(data) =>
        match decode(data)
        case None => Run(Failure(InvalidPayload), calls)
        case Some(v) => Run(Success(v), calls)
  }

  /** `discover_files`: no previewable file means no agent call and no
      result; otherwise one discovery request carrying the first 50
      previews, whose validated answer is the result. */
  function DiscoverFiles<J>(files: seq<ScannedFile>, agent: Prompt -> AgentReply,
                            parse: string -> Option<J>, decode: J -> Option<seq<RelevantFile>>): (r: Run<seq<RelevantFile>>)
    ensures |Previews(files)| == 0 ==> r == Run(Success([]), [])
    ensures |Previews(files)| > 0 ==>
      var prompt := Discovery(FirstPreviews(Previews(files)));
      && 1 <= |r.calls| <= 2 && r.calls[0] == prompt
      && (r.result.Success? <==> Answer(prompt, agent, parse, decode).Some?)
      && (r.result.Success? ==> r.result.value == Answer(prompt, agent, parse, decode).value)
    ensures |r.calls| > 0 ==> |r.calls[0].previews| <= MaxPreviews
    ensures |r.calls| > 0 ==> forall p :: p in r.calls[0].previews ==> |p.head| <= PreviewChars
  {
    var previews := Previews(files);
    if |previews| == 0 then Run(Success([]), [])
    else Ask(Discovery(FirstPreviews(previews)), agent, parse, decode)
  }

  /** Every candidate takes the given source agent. */
  function Restamp(bs: seq<ExtractedBlock>, sourceAgent: SourceAgent): (r: seq<ExtractedBlock>)
    ensures |r| == |bs|
    ensures forall i :: 0 <= i < |r| ==> r[i] == bs[i].(sourceAgent := sourceAgent)
  {
    seq(|bs|, i requires 0 <= i < |bs| => bs[i].(sourceAgent := sourceAgent))
  }

  /** `extract_blocks`: one extraction request for the file; a successful
      answer is the validated list with every block carrying the caller's
      source agent. The code overwrites `source_agent` in each payload entry
      before validating it, so `decode` stands for a validation that never
      consults the value the agent wrote there. */
  function ExtractBlocks<J>(filePath: string, content: string, sourceAgent: SourceAgent, agent: Prompt -> AgentReply,
                            parse: string -> Option<J>, decode: J -> Option<seq<ExtractedBlock>>): (r: Run<seq<ExtractedBlock>>)
    ensures 1 <= |r.calls| <= 2 && r.calls[0] == Extraction(filePath, content)
    ensures r.result.Success? <==> Answer(Extraction(filePath, content), agent, parse, decode).Some?
    ensures r.result.Success? ==>
      r.result.value == Restamp(Answer(Extraction(filePath, content), agent, parse, decode).value, sourceAgent)
    ensures r.result.Success? ==> forall b :: b in r.result.value ==> b.sourceAgent == sourceAgent
  {
    var asked := Ask(Extraction(filePath, content), agent, parse, decode);
    match asked.result
    case Failure(e) => Run(Failure(e), asked.calls)
    case Success(blocks) => Run(Success(Restamp(blocks, sourceAgent)), asked.calls)
  }

  /** The id and content of each existing block, as the dedup prompt lists
      them. */
  function IdsAndContents(bs: seq<Block>): (r: seq<(string, string)>)
    ensures |r| == |bs|
    ensures forall i :: 0 <= i < |bs| ==> r[i] == (bs[i].id, bs[i].content)
  {
    seq(|bs|, i requires 0 <= i < |bs| => (bs[i].id, bs[i].content))
  }

  /** How the dedup answer's `match` field is read: `matchOf` gives the
      field (`Some(None)` when it is null or missing, `None` when the
      payload is not an object), `validate` builds the match from it. */
  function MatchOf<J>(matchOf: J -> Option<Option<J>>, validate: J -> Option<DedupMatch>, data: J): Option<Option<DedupMatch>> {
    match matchOf(data)
    case None => None
    case Some(None) => Some(None)
    case Some(Some(m)) =>
      match validate(m)
      case None => None
      case Some(v) => Some(Some(v))
  }

  /** `check_dedup`: an empty category needs no agent call and has no
      match; otherwise one dedup request listing every existing block, a
      null or missing `match` meaning "no match" and any other one
      validated into the match reported. */
  function CheckDedup<J>(newBlock: ExtractedBlock, existing: seq<Block>, agent: Prompt -> AgentReply,
                         parse: string -> Option<J>, matchOf: J -> Option<Option<J>>,
                         validate: J -> Option<DedupMatch>): (r: Run<Option<DedupMatch>>)
    ensures |existing| == 0 ==> r == Run(Success(None), [])
    ensures |existing| > 0 ==>
      var prompt := DedupCheck(newBlock.suggestedId, newBlock.content, IdsAndContents(existing));
      var field := Answer(prompt, agent, parse, matchOf);
      && 1 <= |r.calls| <= 2
      && r.calls[0] == prompt
      && (field == Some(None) ==> r.result == Success(None))
      && (field.Some? && field.value.Some? ==>
            (r.result.Success? <==> validate(field.value.value).Some?))
      && (field.Some? && field.value.Some? && r.result.Success? ==>
            r.result.value == Some(validate(field.value.value).value))
      && (field.None? ==> r.result.Failure?)
  {
    if |existing| == 0 then Run(Success(None), [])
    else
      Ask(DedupCheck(newBlock.suggestedId, newBlock.content, IdsAndContents(existing)),
          agent, parse, (data: J) => MatchOf(matchOf, validate, data))
  }

  /** The instruction set `FORMAT_INSTRUCTIONS.get(fmt, claude)` picks: each
      known format its own, anything else the claude one. */
  function InstructionsFor(format: string): (k: FormatKind)
    ensures format == "cursor" <==> k == CursorFormat
    ensures format == "windsurf" <==> k == WindsurfFormat
    ensures format != "cursor" && format != "windsurf" <==> k == ClaudeFormat
  {
    if format == "cursor" then CursorFormat
    else if format == "windsurf" then WindsurfFormat
    else ClaudeFormat
  }

  /** `generate_output`: exactly one generation request; its stripped
      answer is the file content, with no JSON parsing. */
  function GenerateOutput(blocks: seq<Block>, format: string, agent: Prompt -> AgentReply): (r: Run<string>)
    ensures r.calls == [Generation(format, blocks, InstructionsFor(format))]
    ensures r.result.Success? <==> agent(Generation(format, blocks, InstructionsFor(format))).returnCode == 0
    ensures r.result.Success? ==> r.result.value == Strip(agent(Generation(format, blocks, InstructionsFor(format))).stdout)
  {
    RunAgent(agent, Generation(format, blocks, InstructionsFor(format)))
  }
}

/** The DeepSeek post generator: the bounded retry loop around the
    chat-completions call, the trimming of the answer, the choice of sampling
    parameters and the two public operations that feed it fixed prompts.

    The chat-completions endpoint is not called: `provider(n)` is what its
    n-th call (counting from 0) within one `_generate_content` run returns.
    Sleeping is not performed: every call and every sleep is recorded, in
    order, in a ghost trace. */
module DeepSeek {
  import opened Wrappers
  import opened Text

  const DefaultModel := "deepseek-chat"
  const DefaultMaxRetries := 3
  const MaxTokens := 2048
  /** The word ("description") whose presence in the system prompt raises the temperature. */
  const DescriptionWord := "описание"
  /** The substring, after lower-casing, that marks an exception as a rate limit. */
  const RateLimitMarker := "rate limit"

  /** What `__init__` keeps: the post's tone and topic and the model name.
      None of them changes after construction. */
  datatype PostGenerator = PostGenerator(tone: string, topic: string, model: string)

  /** The two sampling temperatures the generator uses: 0.7 and 0.4. */
  datatype Temperature = Point7 | Point4

  /** The arguments of one `chat.completions.create` call. */
  datatype Request = Request(
    model: string,
    systemPrompt: string,
    userPrompt: string,
    temperature: Temperature,
    maxTokens: nat)

  /** What one call produced: the first choice's message content (`None` when
      there is no choice or the content is null), or the message of the
      exception it raised. */
  datatype Outcome = Content(content: Option<string>) | Raised(message: string)

  /** One observable step of the loop: a provider call or a blocking sleep. */
  datatype Event = Call(request: Request) | Sleep(seconds: nat)

  /** The value `_generate_content` returns together with what it did. */
  datatype Run = Run(result: Option<string>, trace: seq<Event>)

  /** `temperature=0.7 if "описание" in system_prompt else 0.4`: 0.7 exactly
      when "описание" occurs at some position of the system prompt, 0.4 exactly
      when it occurs nowhere. */
  function TemperatureFor(systemPrompt: string): (t: Temperature)
    ensures t == Point7 <==> exists i :: OccursAt(systemPrompt, DescriptionWord, i)
    ensures t == Point4 <==> forall i :: !OccursAt(systemPrompt, DescriptionWord, i)
  {
    ContainsIff(systemPrompt, DescriptionWord);
    if Contains(systemPrompt, DescriptionWord) then Point7 else Point4
  }

  /** The request every attempt of one run sends. */
  function RequestFor(model: string, systemPrompt: string, userPrompt: string): Request
  {
    Request(model, systemPrompt, userPrompt, TemperatureFor(systemPrompt), MaxTokens)
  }

  /** `content.strip().strip('"')`: surrounding whitespace first, then every
      leading and trailing double quote. */
  function TrimResponse(content: string): (r: string)
    ensures |r| <= |content|
    ensures r == [] || (r[0] != '"' && r[|r| - 1] != '"')
  {
    Strip(Strip(content, IsSpace), IsQuote)
  }

  /** `"rate limit" in str(e).lower()`: the marker occurs at some position of
      the lowered message. */
  predicate IsRateLimit(message: string)
    ensures IsRateLimit(message) <==> exists i :: OccursAt(Lower(message), RateLimitMarker, i)
  {
    ContainsIff(Lower(message), RateLimitMarker);
    Contains(Lower(message), RateLimitMarker)
  }

  /** The attempt returns the trimmed content: the content is present and non-empty. */
  predicate Succeeds(outcome: Outcome)
  {
    outcome.Content? && outcome.content.Some? && outcome.content.value != ""
  }

  /** The attempt makes the method return `None` at once: any exception that is not a rate limit. */
  predicate GivesUp(outcome: Outcome)
  {
    outcome.Raised? && !IsRateLimit(outcome.message)
  }

  /** The loop goes on to the next attempt: an empty response or a rate limit. */
  predicate Continues(outcome: Outcome)
  {
    !Succeeds(outcome) && !GivesUp(outcome)
  }

  /** The content a deciding attempt accepts, before trimming. */
  function Answer(outcome: Outcome): Option<string>
  {
    if Succeeds(outcome) then Some(outcome.content.value) else None
  }

  /** The trimming applied at the `return`. */
  function Trimmed(answer: Option<string>): Option<string>
  {
    if answer.Some? then Some(TrimResponse(answer.value)) else None
  }

  /** What a deciding attempt makes `_generate_content` return. */
  function Decision(outcome: Outcome): Option<string>
  {
    Trimmed(Answer(outcome))
  }

  /** Seconds slept after a continuing attempt: `(attempt + 1) * 5` after a rate limit, none after an empty response. */
  function BackoffSeconds(attempt: nat, outcome: Outcome): nat
  {
    if outcome.Raised? then (attempt + 1) * 5 else 0
  }

  /** The sleep a continuing attempt leaves in the trace. */
  function Backoff(attempt: nat, outcome: Outcome): seq<Event>
  {
    if outcome.Raised? then [Sleep((attempt + 1) * 5)] else []
  }

  /** Attempts `attempt`, `attempt + 1`, ..., `maxRetries - 1` of the loop:
      the accepted content, untrimmed, and the calls and sleeps made. */
  function AttemptsFrom(provider: nat -> Outcome, req: Request, attempt: nat, maxRetries: int): (r: Run)
    ensures r.trace == [] <==> maxRetries <= attempt
    ensures r.trace != [] ==> r.trace[0] == Call(req)
    ensures r.result.Some? ==> r.result.value != ""
    decreases maxRetries - attempt
  {
    if maxRetries <= attempt then Run(None, [])
    else
      var outcome := provider(attempt);
      if Succeeds(outcome) then Run(Answer(outcome), [Call(req)])
      else if GivesUp(outcome) then Run(None, [Call(req)])
      else
        var rest := AttemptsFrom(provider, req, attempt + 1, maxRetries);
        Run(rest.result, [Call(req)] + Backoff(attempt, outcome) + rest.trace)
  }

  /** A whole run of `_generate_content`: the reference behaviour the method is proved against. */
  function Retry(provider: nat -> Outcome, req: Request, maxRetries: int): (r: Run)
    ensures r.trace == [] <==> maxRetries <= 0
    ensures r.trace != [] ==> r.trace[0] == Call(req)
    ensures r.result.Some? ==> r.result.value == [] || (r.result.value[0] != '"' && r.result.value[|r.result.value| - 1] != '"')
  {
    var run := AttemptsFrom(provider, req, 0, maxRetries);
    Run(Trimmed(run.result), run.trace)
  }

  /** Number of provider calls in a trace. */
  function CallCount(trace: seq<Event>): nat
  {
    if trace == [] then 0 else (if trace[0].Call? then 1 else 0) + CallCount(trace[1..])
  }

  /** Total seconds slept in a trace. */
  function TotalSleep(trace: seq<Event>): nat
  {
    if trace == [] then 0 else (if trace[0].Sleep? then trace[0].seconds else 0) + TotalSleep(trace[1..])
  }

  /** Seconds the backoff formula prescribes for attempts `0 .. k - 1`. */
  function SleepBefore(provider: nat -> Outcome, k: nat): nat
  {
    if k == 0 then 0 else SleepBefore(provider, k - 1) + BackoffSeconds(k - 1, provider(k - 1))
  }

  function Max0(n: int): nat
  {
    if n < 0 then 0 else n
  }

  lemma {:induction false} CountsAppend(a: seq<Event>, b: seq<Event>)
    ensures CallCount(a + b) == CallCount(a) + CallCount(b)
    ensures TotalSleep(a + b) == TotalSleep(a) + TotalSleep(b)
    decreases |a|
  {
    if a == [] {
      assert a + b == b;
    } else {
      CountsAppend(a[1..], b);
      assert (a + b)[1..] == a[1..] + b;
    }
  }

  /** The trace of one continuing attempt: one call, then its backoff sleep if any. */
  lemma StepCounts(req: Request, attempt: nat, outcome: Outcome, rest: seq<Event>)
    ensures CallCount([Call(req)] + Backoff(attempt, outcome) + rest) == 1 + CallCount(rest)
    ensures TotalSleep([Call(req)] + Backoff(attempt, outcome) + rest) == BackoffSeconds(attempt, outcome) + TotalSleep(rest)
  {
    CountsAppend([Call(req)] + Backoff(attempt, outcome), rest);
    CountsAppend([Call(req)], Backoff(attempt, outcome));
  }

  /** One decisive attempt ends the run after a single call and no sleep. */
  lemma DecisiveStep(provider: nat -> Outcome, req: Request, maxRetries: int, a: nat)
    requires a < maxRetries && !Continues(provider(a))
    ensures var run := AttemptsFrom(provider, req, a, maxRetries);
      run.result == Answer(provider(a)) && CallCount(run.trace) == 1 && TotalSleep(run.trace) == 0
  {
    assert AttemptsFrom(provider, req, a, maxRetries).trace == [Call(req)];
  }

  /** One continuing attempt adds one call and its backoff to the rest of the run. */
  lemma ContinuingStep(provider: nat -> Outcome, req: Request, maxRetries: int, a: nat)
    requires a < maxRetries && Continues(provider(a))
    ensures var run, rest := AttemptsFrom(provider, req, a, maxRetries), AttemptsFrom(provider, req, a + 1, maxRetries);
      && run.result == rest.result
      && CallCount(run.trace) == 1 + CallCount(rest.trace)
      && TotalSleep(run.trace) == BackoffSeconds(a, provider(a)) + TotalSleep(rest.trace)
  {
    var rest := AttemptsFrom(provider, req, a + 1, maxRetries);
    assert AttemptsFrom(provider, req, a, maxRetries).trace == [Call(req)] + Backoff(a, provider(a)) + rest.trace;
    StepCounts(req, a, provider(a), rest.trace);
  }

  lemma {:induction false} DecidedFrom(provider: nat -> Outcome, req: Request, maxRetries: int, a: nat, k: nat)
    requires a <= k < maxRetries
    requires forall i :: a <= i < k ==> Continues(provider(i))
    requires !Continues(provider(k))
    ensures var run := AttemptsFrom(provider, req, a, maxRetries);
      && run.result == Answer(provider(k))
      && CallCount(run.trace) == k + 1 - a
      && SleepBefore(provider, a) + TotalSleep(run.trace) == SleepBefore(provider, k)
    decreases k - a
  {
    if a == k {
      DecisiveStep(provider, req, maxRetries, a);
    } else {
      ContinuingStep(provider, req, maxRetries, a);
      DecidedFrom(provider, req, maxRetries, a + 1, k);
    }
  }

  lemma {:induction false} ExhaustedFrom(provider: nat -> Outcome, req: Request, maxRetries: int, a: nat)
    requires forall i :: a <= i < maxRetries ==> Continues(provider(i))
    ensures var run := AttemptsFrom(provider, req, a, maxRetries);
      && run.result == None
      && CallCount(run.trace) == Max0(maxRetries - a)
      && SleepBefore(provider, a) + TotalSleep(run.trace) == SleepBefore(provider, a + Max0(maxRetries - a))
    decreases maxRetries - a
  {
    if a < maxRetries {
      ContinuingStep(provider, req, maxRetries, a);
      ExhaustedFrom(provider, req, maxRetries, a + 1);
    }
  }

  /** If attempts `0 .. k - 1` only saw empty responses or rate limits and
      attempt `k` is decisive, the provider is called exactly `k + 1` times,
      the sleeps add up to the backoff of the rate-limited attempts before
      `k`, and the result is the trimmed content of attempt `k` (or `None`
      when it raised something other than a rate limit). */
  lemma FirstDecisiveAttempt(provider: nat -> Outcome, req: Request, maxRetries: int, k: nat)
    requires k < maxRetries
    requires forall i :: 0 <= i < k ==> Continues(provider(i))
    requires !Continues(provider(k))
    ensures var run := Retry(provider, req, maxRetries);
      && run.result == Decision(provider(k))
      && CallCount(run.trace) == k + 1
      && TotalSleep(run.trace) == SleepBefore(provider, k)
  {
    DecidedFrom(provider, req, maxRetries, 0, k);
  }

  /** If no attempt is decisive, every one of the `max_retries` attempts calls
      the provider (none when `max_retries <= 0`), each rate limit sleeps
      `(attempt + 1) * 5` seconds, the last one included, and the result is `None`. */
  lemma AllAttemptsExhausted(provider: nat -> Outcome, req: Request, maxRetries: int)
    requires forall i :: 0 <= i < maxRetries ==> Continues(provider(i))
    ensures var run := Retry(provider, req, maxRetries);
      && run.result == None
      && CallCount(run.trace) == Max0(maxRetries)
      && TotalSleep(run.trace) == SleepBefore(provider, Max0(maxRetries))
  {
    ExhaustedFrom(provider, req, maxRetries, 0);
  }

  lemma {:induction false} BoundsFrom(provider: nat -> Outcome, req: Request, maxRetries: int, a: nat)
    ensures var run := AttemptsFrom(provider, req, a, maxRetries);
      && CallCount(run.trace) <= Max0(maxRetries - a)
      && (forall e :: e in run.trace && e.Call? ==> e.request == req)
      && (run.result.Some? ==> exists k :: a <= k < maxRetries && Succeeds(provider(k)) && run.result == Answer(provider(k)))
    decreases maxRetries - a
  {
    var run := AttemptsFrom(provider, req, a, maxRetries);
    if maxRetries <= a {
      assert run == Run(None, []);
    } else if !Continues(provider(a)) {
      assert run == Run(Answer(provider(a)), [Call(req)]);
      StepCounts(req, a, Content(None), []);
    } else {
      var rest := AttemptsFrom(provider, req, a + 1, maxRetries);
      assert run == Run(rest.result, [Call(req)] + Backoff(a, provider(a)) + rest.trace);
      BoundsFrom(provider, req, maxRetries, a + 1);
      StepCounts(req, a, provider(a), rest.trace);
      if run.result.Some? {
        var k :| a + 1 <= k < maxRetries && Succeeds(provider(k)) && rest.result == Answer(provider(k));
      }
    }
  }

  /** For every provider: at most `max_retries` calls, all with the same
      request, and a result only from an attempt whose content was non-empty,
      returned trimmed, so never starting or ending with a double quote. */
  lemma RetryBounds(provider: nat -> Outcome, req: Request, maxRetries: int)
    ensures var run := Retry(provider, req, maxRetries);
      && CallCount(run.trace) <= Max0(maxRetries)
      && (forall e :: e in run.trace && e.Call? ==> e.request == req)
      && (run.result.Some? ==>
            exists k :: 0 <= k < maxRetries && Succeeds(provider(k)) && run.result.value == TrimResponse(provider(k).content.value))
      && (run.result.Some? ==> run.result.value == [] || (run.result.value[0] != '"' && run.result.value[|run.result.value| - 1] != '"'))
  {
    BoundsFrom(provider, req, maxRetries, 0);
    var raw := AttemptsFrom(provider, req, 0, maxRetries);
    if raw.result.Some? {
      var k :| 0 <= k < maxRetries && Succeeds(provider(k)) && raw.result == Answer(provider(k));
      assert Retry(provider, req, maxRetries).result.value == TrimResponse(provider(k).content.value);
    }
  }

  /** A string of `n` double quotes. */
  function Quotes(n: nat): (q: string)
    ensures |q| == n && All(q, IsQuote)
  {
    seq(n, _ => '"')
  }

  /** Content wrapped in any number of double quotes, with whitespace outside
      them, comes back with every layer of quotes removed. */
  lemma TrimUnwrapsQuotes(front: string, n: nat, s: string, m: nat, back: string)
    requires All(front, IsSpace) && All(back, IsSpace)
    requires n >= 1 && m >= 1
    requires s == [] || (s[0] != '"' && s[|s| - 1] != '"')
    ensures TrimResponse(front + Quotes(n) + s + Quotes(m) + back) == s
  {
    var quoted := Quotes(n) + s + Quotes(m);
    assert quoted[0] == '"' && quoted[|quoted| - 1] == '"';
    assert front + Quotes(n) + s + Quotes(m) + back == front + quoted + back;
    StripPadded(front, quoted, back, IsSpace);
    StripPadded(Quotes(n), s, Quotes(m), IsQuote);
  }

  /** Non-empty content can still trim to the empty string: whitespace,
      then double quotes, then whitespace. */
  lemma TrimBlank(front: string, quotes: string, back: string)
    requires All(front, IsSpace) && All(quotes, IsQuote) && All(back, IsSpace)
    ensures TrimResponse(front + quotes + back) == []
  {
    if quotes == [] {
      StripPadded(front, [], back, IsSpace);
      assert front + [] + back == front + quotes + back;
    } else {
      StripPadded(front, quotes, back, IsSpace);
      StripPadded(quotes, [], [], IsQuote);
      assert quotes + [] + [] == quotes;
    }
  }

  /** The trimmed answer is empty exactly when what `strip()` leaves is made of double quotes only. */
  lemma TrimEmptyIff(content: string)
    ensures TrimResponse(content) == [] <==> All(Strip(content, IsSpace), IsQuote)
  {
    StripEmptyIff(Strip(content, IsSpace), IsQuote);
  }

  /** Whitespace between two quotes survives: `'" "'` trims to a single space,
      not to the empty string, because whitespace is stripped before quotes. */
  lemma TrimKeepsSpaceBetweenQuotes(c: char)
    requires IsSpace(c)
    ensures TrimResponse(['"', c, '"']) == [c]
  {
    assert c != '"';
    var quoted := ['"', c, '"'];
    assert [] + quoted + [] == quoted;
    assert !IsSpace('"');
    assert quoted[0] == '"' && quoted[|quoted| - 1] == '"';
    assert All([], IsSpace);
    StripPadded([], quoted, [], IsSpace);
    assert Strip(quoted, IsSpace) == quoted;
    assert ['"'] + [c] + ['"'] == quoted;
    assert All(['"'], IsQuote);
    StripPadded(['"'], [c], ['"'], IsQuote);
    assert Strip(quoted, IsQuote) == [c];
  }

  /** Trimming only cuts, so an ASCII answer stays ASCII. */
  lemma TrimKeepsAscii(content: string)
    requires IsAscii(content)
    ensures IsAscii(TrimResponse(content))
  {
    StripKeepsAscii(content, IsSpace);
    StripKeepsAscii(Strip(content, IsSpace), IsQuote);
  }

  /** The check is case-insensitive: any spelling that lowers to "rate limit" marks a rate limit. */
  lemma RateLimitAnyCase(front: string, marker: string, back: string)
    requires Lower(marker) == RateLimitMarker
    ensures IsRateLimit(front + marker + back)
  {
    LowerAppend(front + marker, back);
    LowerAppend(front, marker);
    assert Contains(RateLimitMarker, RateLimitMarker);
    ContainsInside(Lower(front), RateLimitMarker, Lower(back), RateLimitMarker);
  }

  /** With the default three attempts, a rate limit every time calls the
      provider three times, sleeps 5, 10 and 15 seconds (the last one after
      the final attempt) and returns `None`. */
  lemma EveryAttemptRateLimited(provider: nat -> Outcome, req: Request)
    requires provider(0).Raised? && IsRateLimit(provider(0).message)
    requires provider(1).Raised? && IsRateLimit(provider(1).message)
    requires provider(2).Raised? && IsRateLimit(provider(2).message)
    ensures Retry(provider, req, DefaultMaxRetries)
      == Run(None, [Call(req), Sleep(5), Call(req), Sleep(10), Call(req), Sleep(15)])
  {
    var last := AttemptsFrom(provider, req, 2, 3);
    assert last == Run(None, [Call(req), Sleep(15)]);
    var middle := AttemptsFrom(provider, req, 1, 3);
    assert middle == Run(None, [Call(req), Sleep(10), Call(req), Sleep(15)]);
  }

  /** Two rate limits and then an answer: three calls, 5 + 10 seconds of sleep, the trimmed answer. */
  lemma RateLimitedTwiceThenAnswer(provider: nat -> Outcome, req: Request, text: string)
    requires provider(0).Raised? && IsRateLimit(provider(0).message)
    requires provider(1).Raised? && IsRateLimit(provider(1).message)
    requires provider(2) == Content(Some(text)) && text != ""
    ensures Retry(provider, req, DefaultMaxRetries)
      == Run(Some(TrimResponse(text)), [Call(req), Sleep(5), Call(req), Sleep(10), Call(req)])
  {
    assert Succeeds(provider(2)) && Continues(provider(1)) && Continues(provider(0));
    var last := AttemptsFrom(provider, req, 2, 3);
    assert last == Run(Some(text), [Call(req)]);
    var middle := AttemptsFrom(provider, req, 1, 3);
    assert Backoff(1, provider(1)) == [Sleep(10)];
    assert middle == Run(Some(text), [Call(req), Sleep(10), Call(req)]);
    var first := AttemptsFrom(provider, req, 0, 3);
    assert Backoff(0, provider(0)) == [Sleep(5)];
    assert first == Run(Some(text), [Call(req), Sleep(5), Call(req), Sleep(10), Call(req)]);
  }

  /** Empty answers every time: three calls back to back, no sleep, `None`. */
  lemma EveryAttemptEmpty(provider: nat -> Outcome, req: Request)
    requires provider(0).Content? && !Succeeds(provider(0))
    requires provider(1).Content? && !Succeeds(provider(1))
    requires provider(2).Content? && !Succeeds(provider(2))
    ensures Retry(provider, req, DefaultMaxRetries) == Run(None, [Call(req), Call(req), Call(req)])
  {
    var last := AttemptsFrom(provider, req, 2, 3);
    assert last == Run(None, [Call(req)]);
    var middle := AttemptsFrom(provider, req, 1, 3);
    assert middle == Run(None, [Call(req), Call(req)]);
  }

  /** Any other exception on the first attempt: one call, no sleep, `None`, whatever `max_retries` is. */
  lemma OtherErrorStopsAtOnce(provider: nat -> Outcome, req: Request, maxRetries: int)
    requires maxRetries >= 1
    requires provider(0).Raised? && !IsRateLimit(provider(0).message)
    ensures Retry(provider, req, maxRetries) == Run(None, [Call(req)])
  {
  }

  /** Non-empty content that trims to nothing is a success: the loop returns
      the empty string after one call instead of trying again. */
  lemma BlankAnswerIsSuccess(provider: nat -> Outcome, req: Request, maxRetries: int, front: string, quotes: string, back: string)
    requires maxRetries >= 1
    requires All(front, IsSpace) && All(quotes, IsQuote) && All(back, IsSpace)
    requires front + quotes + back != []
    requires provider(0) == Content(Some(front + quotes + back))
    ensures Retry(provider, req, maxRetries) == Run(Some([]), [Call(req)])
  {
    var content := front + quotes + back;
    assert Succeeds(provider(0));
    assert AttemptsFrom(provider, req, 0, maxRetries) == Run(Some(content), [Call(req)]);
    TrimBlank(front, quotes, back);
  }

  /** Piece `k` of a prompt written in pieces has no "о" right before "п" and,
      unless it comes first, does not start with "п", so no "описание" can
      start inside it or straddle its start. */
  predicate PieceClear(pieces: seq<string>, k: int)
  {
    0 <= k < |pieces| && PartClear(pieces, k, DescriptionWord[0], DescriptionWord[1])
  }

  /** A prompt made of clear pieces does not contain "описание". */
  lemma FreeOfDescriptionWord(pieces: seq<string>)
    requires forall k :: 0 <= k < |pieces| ==> PieceClear(pieces, k)
    ensures !Contains(Concat(pieces), DescriptionWord)
  {
    forall k | 0 <= k < |pieces|
      ensures PartClear(pieces, k, DescriptionWord[0], DescriptionWord[1])
    {
      assert PieceClear(pieces, k);
    }
    ConcatNoPair(pieces, DescriptionWord[0], DescriptionWord[1]);
    NoPairExcludes(Concat(pieces), DescriptionWord);
  }

  lemma ImagePiecesClear1()
    ensures PieceClear(ImagePromptPieces, 0) && PieceClear(ImagePromptPieces, 1) && PieceClear(ImagePromptPieces, 2)
  {
  }

  lemma ImagePiecesClear2()
    ensures PieceClear(ImagePromptPieces, 3) && PieceClear(ImagePromptPieces, 4) && PieceClear(ImagePromptPieces, 5)
  {
  }

  lemma ImagePiecesClear3()
    ensures PieceClear(ImagePromptPieces, 6) && PieceClear(ImagePromptPieces, 7) && PieceClear(ImagePromptPieces, 8)
  {
  }

  lemma ImagePiecesClear4()
    ensures PieceClear(ImagePromptPieces, 9) && PieceClear(ImagePromptPieces, 10) && PieceClear(ImagePromptPieces, 11)
  {
  }

  lemma ImagePiecesClear5()
    ensures PieceClear(ImagePromptPieces, 12) && PieceClear(ImagePromptPieces, 13) && PieceClear(ImagePromptPieces, 14)
  {
  }

  lemma ImagePiecesClear6()
    ensures PieceClear(ImagePromptPieces, 15) && PieceClear(ImagePromptPieces, 16) && PieceClear(ImagePromptPieces, 17)
  {
  }

  lemma PostPiecesClear1()
    ensures PieceClear(PostPromptPieces, 0) && PieceClear(PostPromptPieces, 1)
  {
  }

  lemma PostPiecesClear2()
    ensures PieceClear(PostPromptPieces, 2) && PieceClear(PostPromptPieces, 3)
  {
  }

  /** The image instruction does not contain "описание", so
      `generate_post_image_description` always asks for temperature 0.4. */
  lemma ImageTemperature()
    ensures TemperatureFor(ImageSystemPrompt) == Point4
  {
    ImagePiecesClear1();
    ImagePiecesClear2();
    ImagePiecesClear3();
    ImagePiecesClear4();
    ImagePiecesClear5();
    ImagePiecesClear6();
    FreeOfDescriptionWord(ImagePromptPieces);
  }

  /** `generate_post` asks for temperature 0.7 exactly when the tone contains
      "описание": the fixed text around the tone neither contains the word
      nor can complete one that the tone starts or ends. */
  lemma PostTemperatureFollowsTone(tone: string)
    ensures TemperatureFor(PostSystemPrompt(tone)) == if Contains(tone, DescriptionWord) then Point7 else Point4
  {
    PostPiecesClear1();
    PostPiecesClear2();
    var prefix := Concat(PostPromptPieces);
    ConcatNoPair(PostPromptPieces, DescriptionWord[0], DescriptionWord[1]);
    assert prefix == Concat(PostPromptPieces[..3]) + PostPromptPieces[3];
    assert prefix[|prefix| - 1] == ' ';
    ContainsFramed(prefix, tone, ".", DescriptionWord);
  }

  /** One continuing attempt of the loop: after its call and its backoff are
      recorded, the rest of the run is made of the later attempts. */
  lemma LoopStep(provider: nat -> Outcome, req: Request, maxRetries: int, a: nat, done: seq<Event>)
    requires a < maxRetries && Continues(provider(a))
    ensures var now, later := AttemptsFrom(provider, req, a, maxRetries), AttemptsFrom(provider, req, a + 1, maxRetries);
      now.result == later.result
      && done + now.trace == (done + [Call(req)] + Backoff(a, provider(a))) + later.trace
  {
  }

  /** `_generate_content`: up to `max_retries` attempts; a non-empty answer is
      returned trimmed, an empty one moves on at once, a rate limit sleeps
      `(attempt + 1) * 5` seconds and moves on, any other exception gives `None`. */
  method GenerateContent(gen: PostGenerator, provider: nat -> Outcome, systemPrompt: string, userPrompt: string, maxRetries: int)
    returns (result: Option<string>, ghost trace: seq<Event>)
    ensures Run(result, trace) == Retry(provider, RequestFor(gen.model, systemPrompt, userPrompt), maxRetries)
    ensures result.Some? ==> result.value == [] || (result.value[0] != '"' && result.value[|result.value| - 1] != '"')
  {
    var request := RequestFor(gen.model, systemPrompt, userPrompt);
    trace := [];
    var attempt: nat := 0;
    while attempt < maxRetries
      invariant Retry(provider, request, maxRetries)
        == Run(Trimmed(AttemptsFrom(provider, request, attempt, maxRetries).result),
               trace + AttemptsFrom(provider, request, attempt, maxRetries).trace)
      decreases maxRetries - attempt
    {
      var outcome := provider(attempt);
      ghost var before := trace;
      trace := trace + [Call(request)];
      if outcome.Content? {
        if outcome.content.Some? && outcome.content.value != "" {
          result := Some(TrimResponse(outcome.content.value));
          return;
        }
        // an empty answer is only logged; the next attempt starts at once
      } else if IsRateLimit(outcome.message) {
        trace := trace + [Sleep((attempt + 1) * 5)];
      } else {
        result := None;
        return;
      }
      LoopStep(provider, request, maxRetries, attempt, before);
      assert trace == before + [Call(request)] + Backoff(attempt, outcome);
      attempt := attempt + 1;
    }
    result := None;
  }

  /** The text of `generate_post`'s system prompt before the tone, cut at
      spaces into pieces short enough to inspect one lemma at a time. */
  const PostPromptPieces: seq<string> := [
    "Ты высококвалифицированный",
    " SMM специалист, который",
    " генерирует тексты для",
    " постов. Тон сообщений: "
  ]

  /** The system prompt of `generate_post`, embedding the tone. */
  function PostSystemPrompt(tone: string): string
  {
    Concat(PostPromptPieces) + tone + "."
  }

  /** The user prompt of `generate_post`, embedding the topic and the tone. */
  function PostUserPrompt(topic: string, tone: string): string
  {
    "Сгенерируй пост для соцсетей на тему: '" + topic
      + "'. Пост должен быть привлекательным, содержательным и соответствовать тону " + tone + "."
  }

  /** The fixed system prompt of `generate_post_image_description`: the
      source's four adjacent literals, cut at spaces into pieces short enough
      to inspect one lemma at a time. */
  const ImagePromptPieces: seq<string> := [
    "Ты — эксперт по созданию",
    " промптов для генерации",
    " изображений. Генерируй",
    " только англоязычные",
    " промпты для моделей типа",
    " Imagen или Midjourney.",
    " Промпт должен включать:",
    " объект, окружение,",
    " стиль, освещение,",
    " детали. Пример: 'photo",
    " of a sleek, modern",
    " kitchen knife with",
    " Damascus steel pattern,",
    " resting on dark granite",
    " next to chopped",
    " vegetables, cinematic",
    " lighting,",
    " ultra-realistic, 8k'."
  ]

  const ImageSystemPrompt := Concat(ImagePromptPieces)

  /** The user prompt of `generate_post_image_description`, embedding the topic. */
  function ImageUserPrompt(topic: string): string
  {
    "Создай промпт для генерации изображения на тему: '" + topic + "'."
  }

  /** `generate_post`: the post prompts, three attempts. */
  method GeneratePost(gen: PostGenerator, provider: nat -> Outcome)
    returns (result: Option<string>, ghost trace: seq<Event>)
    ensures result == Retry(provider,
      RequestFor(gen.model, PostSystemPrompt(gen.tone), PostUserPrompt(gen.topic, gen.tone)), DefaultMaxRetries).result
    ensures trace == Retry(provider,
      RequestFor(gen.model, PostSystemPrompt(gen.tone), PostUserPrompt(gen.topic, gen.tone)), DefaultMaxRetries).trace
    ensures CallCount(trace) <= DefaultMaxRetries
    ensures forall e :: e in trace && e.Call? ==>
      e.request == RequestFor(gen.model, PostSystemPrompt(gen.tone), PostUserPrompt(gen.topic, gen.tone))
    ensures forall e :: e in trace && e.Call? ==>
      e.request.temperature == if Contains(gen.tone, DescriptionWord) then Point7 else Point4
  {
    var systemPrompt, userPrompt := PostSystemPrompt(gen.tone), PostUserPrompt(gen.topic, gen.tone);
    result, trace := GenerateContent(gen, provider, systemPrompt, userPrompt, DefaultMaxRetries);
    RetryBounds(provider, RequestFor(gen.model, systemPrompt, userPrompt), DefaultMaxRetries);
    PostTemperatureFollowsTone(gen.tone);
  }

  /** `generate_post_image_description`: the fixed image-prompt instruction, three attempts. */
  method GeneratePostImageDescription(gen: PostGenerator, provider: nat -> Outcome)
    returns (result: Option<string>, ghost trace: seq<Event>)
    ensures result == Retry(provider,
      RequestFor(gen.model, ImageSystemPrompt, ImageUserPrompt(gen.topic)), DefaultMaxRetries).result
    ensures trace == Retry(provider,
      RequestFor(gen.model, ImageSystemPrompt, ImageUserPrompt(gen.topic)), DefaultMaxRetries).trace
    ensures CallCount(trace) <= DefaultMaxRetries
    ensures forall e :: e in trace && e.Call? ==>
      e.request == RequestFor(gen.model, ImageSystemPrompt, ImageUserPrompt(gen.topic))
    ensures forall e :: e in trace && e.Call? ==> e.request.temperature == Point4
  {
    var userPrompt := ImageUserPrompt(gen.topic);
    result, trace := GenerateContent(gen, provider, ImageSystemPrompt, userPrompt, DefaultMaxRetries);
    RetryBounds(provider, RequestFor(gen.model, ImageSystemPrompt, userPrompt), DefaultMaxRetries);
    ImageTemperature();
  }
}

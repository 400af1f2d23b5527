# PostGen text generation and set-up checks, in Dafny

This project models two parts of the PostGen social-media post generator.

**The DeepSeek text generator** is `DeepSeekPostGenerator` in `generators/text_gen_ds.py`, modelled in `text_gen_ds.dfy` as module `DeepSeek`. The model covers:

- `_generate_content`: the retry loop over the chat-completions provider.
  - It trims a successful answer with `strip().strip('"')`.
  - It skips an empty answer without sleeping.
  - After an error mentioning "rate limit" it sleeps `(attempt + 1) * 5` seconds.
  - It gives up on any other error.
- How each request is built:
  - temperature 0.7 when the system prompt contains "описание", otherwise 0.4;
  - `max_tokens` is always 2048.
- `generate_post` and `generate_post_image_description`: the prompts they build, and their delegation to the loop with three attempts.

The provider is an input. It is a function from the attempt number to that attempt's outcome: non-empty content, empty or missing content, or an exception with its message. The loop is a method. It returns the result and a ghost trace of every call and every sleep in order. The method is proved equal to the recursive specification `DeepSeek.Retry`, and the lemmas state what the source promises about that specification.

The Python string operations the generator uses are in `text.dfy` (module `Text`):

- `str.strip()`, with the exact `str.isspace()` character set;
- `str.strip('"')`;
- `str.lower()`, restricted to ASCII;
- the substring test `p in s`.

**The start-up checker** is `test_credentials.py`, modelled in `test_credentials.dfy` as module `Credentials`. The model covers:

- the decision chain of `check_google_credentials`: environment variable, then file existence, then JSON contents, then required keys;
- the `missing_keys` filter;
- the error-collecting loop of `check_config`;
- `main`, which runs both checks and succeeds only when both do.

The environment variable, the file system and the configuration module are inputs:

- the variable's value is an `Option<string>`;
- the file system gives existence and parse outcome per path;
- the configuration is a map from attribute name to `Option<string>`.

`seqs.dfy` holds `IndexOf`, which is used to state the order of reported keys and errors. `wrappers.dfy` holds `Option`.

## Model

| member | source | states |
|---|---|---|
| DeepSeek.GenerateContent | generators/text_gen_ds.py:50-77 | The loop returns exactly the result, and performs exactly the calls and sleeps, of the retry specification `Retry` for the request built from the generator's model and the two prompts. A returned string neither starts nor ends with `"`. |
| DeepSeek.FirstDecisiveAttempt | generators/text_gen_ds.py:50-74 | Suppose attempt k (0-based, k < max_retries) is the first that neither rate-limits nor returns empty content. Then the provider is called exactly k+1 times, the result is attempt k's decision, and the total sleep is the sum of the rate-limit backoffs before k. |
| DeepSeek.DecidedFrom | generators/text_gen_ds.py:50-74 | From any attempt a up to the first decisive attempt k: the result is attempt k's raw answer, there are k+1-a calls, and the sleeps add up to the backoffs between a and k. |
| DeepSeek.AllAttemptsExhausted | generators/text_gen_ds.py:50-77 | When every attempt is empty or rate-limited, the result is `None`. The provider is called max(max_retries, 0) times, and every rate limit's sleep is counted, the one after the last attempt included. |
| DeepSeek.ExhaustedFrom | generators/text_gen_ds.py:50-77 | From attempt a, when all remaining attempts continue, the result is `None`, there are max(max_retries - a, 0) calls, and every backoff is summed. |
| DeepSeek.RetryBounds | generators/text_gen_ds.py:50-63 | For any provider: at most max(max_retries, 0) calls, and every call sends the same request. A returned string is the trimmed content of some successful attempt, and it has no leading or trailing `"`. |
| DeepSeek.BoundsFrom | generators/text_gen_ds.py:50-63 | From attempt a: at most max(max_retries - a, 0) calls, all with the same request. Any result is the raw content of a successful attempt at or after a. |
| DeepSeek.DecisiveStep | generators/text_gen_ds.py:62-74 | An attempt that succeeds or raises a non-rate-limit error ends the run. It makes one call and no sleep, and its answer is the result. |
| DeepSeek.ContinuingStep | generators/text_gen_ds.py:62-72 | An empty or rate-limited attempt adds one call and its own backoff, and leaves the result to the later attempts. |
| DeepSeek.StepCounts | generators/text_gen_ds.py:52-72 | One attempt's trace segment holds one call, and sleeps for exactly that attempt's backoff. |
| DeepSeek.CountsAppend | generators/text_gen_ds.py:50 | Calls and sleep time of consecutive trace segments add up. |
| DeepSeek.EveryAttemptRateLimited | generators/text_gen_ds.py:50-77 | With the default three attempts all rate-limited, the run is call, sleep 5, call, sleep 10, call, sleep 15 (30 seconds in total), and the result is `None`. |
| DeepSeek.RateLimitedTwiceThenAnswer | generators/text_gen_ds.py:50-72 | Two rate limits followed by content give call, sleep 5, call, sleep 10, call (15 seconds in total), and the trimmed content. |
| DeepSeek.EveryAttemptEmpty | generators/text_gen_ds.py:62-77 | Three empty or missing answers give three calls, no sleep, and `None`. |
| DeepSeek.BlankAnswerIsSuccess | generators/text_gen_ds.py:62-63 | Non-empty content made of whitespace, then quotes, then whitespace is a success returning the empty string after one call. It is not retried. |
| DeepSeek.TrimResponse | generators/text_gen_ds.py:63 | The trimmed answer is no longer than the content, and it is empty or neither starts nor ends with `"`. |
| DeepSeek.TrimUnwrapsQuotes | generators/text_gen_ds.py:63 | Content made of whitespace, one or more quotes, a text s, one or more quotes and whitespace trims to exactly s, when s does not itself start or end with a quote. Every layer of quotes is removed. |
| DeepSeek.TrimBlank | generators/text_gen_ds.py:63 | Whitespace, then quotes, then whitespace trims to the empty string. |
| DeepSeek.TrimEmptyIff | generators/text_gen_ds.py:63 | The trim is empty exactly when the whitespace-stripped content consists of quotes only. |
| DeepSeek.TrimKeepsSpaceBetweenQuotes | generators/text_gen_ds.py:63 | A whitespace character between two quotes survives: `" "` (quote, space, quote) trims to a single space, not to the empty string, because whitespace is stripped before quotes. |
| DeepSeek.TrimKeepsAscii | generators/text_gen_ds.py:63 | Trimming ASCII content leaves ASCII text, so the English-only check on image prompts depends only on the characters the provider sent. |
| DeepSeek.RateLimitAnyCase | generators/text_gen_ds.py:69 | An error message containing "rate limit" in any ASCII letter case counts as a rate limit. |
| DeepSeek.TemperatureFor | generators/text_gen_ds.py:58 | The temperature is 0.7 exactly when "описание" occurs at some position of the system prompt, and 0.4 exactly when it occurs nowhere. |
| DeepSeek.IsRateLimit | generators/text_gen_ds.py:69 | An exception counts as a rate limit exactly when "rate limit" occurs at some position of its lowered message. |
| DeepSeek.AttemptsFrom | generators/text_gen_ds.py:50-77 | The attempts from a given one on make no call exactly when none is left. Otherwise the first event is a call with the run's request. Any accepted content is non-empty. |
| DeepSeek.Retry | generators/text_gen_ds.py:50-77 | A run makes no call exactly when max_retries <= 0, and then returns `None`. Otherwise it starts with a call with its request. A returned string neither starts nor ends with `"`. |
| DeepSeek.OtherErrorStopsAtOnce | generators/text_gen_ds.py:73-74 | An exception that is not a rate limit on the first attempt gives one call, no sleep and `None`, whatever max_retries is. |
| DeepSeek.FreeOfDescriptionWord | generators/text_gen_ds.py:58 | A prompt whose pieces each lack "о" followed by "п", and of which none but the first starts with "п", does not contain "описание". |
| DeepSeek.ImageTemperature | generators/text_gen_ds.py:93-98 | The fixed image instruction does not contain "описание", so image-prompt requests always ask for temperature 0.4. |
| DeepSeek.PostTemperatureFollowsTone | generators/text_gen_ds.py:83 | `generate_post` asks for temperature 0.7 exactly when the tone contains "описание", and 0.4 otherwise. The fixed text around the tone neither contains the word nor completes one begun or ended in the tone. |
| DeepSeek.GeneratePost | generators/text_gen_ds.py:79-87 | Runs the retry specification with the post prompts built from tone and topic and the default three attempts. It makes at most three calls, every call sends that request, and each asks for temperature 0.7 if the tone contains "описание" and 0.4 otherwise. |
| DeepSeek.GeneratePostImageDescription | generators/text_gen_ds.py:89-102 | Runs the retry specification with the fixed image-prompt instruction and the topic prompt, three attempts at most. Every call sends that request, at temperature 0.4. |
| Text.StripLeft | generators/text_gen_ds.py:63 | `lstrip`: the result is a suffix of the input, everything cut off is in the set, and the result does not start with a set character. |
| Text.StripRight | generators/text_gen_ds.py:63 | `rstrip`: the result is a prefix of the input, everything cut off is in the set, and the result does not end with a set character. |
| Text.Strip | generators/text_gen_ds.py:63 | `strip(chars)`: the result is no longer than the input, and it is empty or neither starts nor ends with a character of the set. |
| Text.StripLeftPadded | generators/text_gen_ds.py:63 | Set characters in front of a text that does not start with one are exactly what `lstrip` removes. |
| Text.StripRightPadded | generators/text_gen_ds.py:63 | Set characters after a text that does not end with one are exactly what `rstrip` removes. |
| Text.StripPadded | generators/text_gen_ds.py:63 | Padding of set characters around a core whose ends are outside the set is exactly what `strip` removes. |
| Text.StripEmptyIff | generators/text_gen_ds.py:63 | `strip` gives the empty string exactly when every character is in the set. |
| Text.StripKeepsAscii | test_text_gen.py:49 | Stripping an ASCII text leaves an ASCII text. |
| Text.Lower | generators/text_gen_ds.py:69 | Lowering keeps the length and lowers each character in place. |
| Text.LowerAppend | generators/text_gen_ds.py:69 | Lowering distributes over concatenation. |
| Text.ContainsIff | generators/text_gen_ds.py:58 | The left-to-right substring search succeeds exactly when the pattern occurs at some position. |
| Text.ContainsInside | generators/text_gen_ds.py:83 | A pattern found in part of a text is found in the whole text. |
| Text.ContainsFramed | generators/text_gen_ds.py:83 | Text around a middle part that cannot start, complete or straddle into an occurrence of the pattern leaves the search result that of the middle part, in both directions. |
| Text.NoPairExcludes | generators/text_gen_ds.py:58 | A text in which the pattern's first character is never followed by its second does not contain the pattern. |
| Credentials.CredentialsVerdictOf | test_credentials.py:13-52 | The chain takes exactly one branch. An unset or empty variable stops it first, whatever the file system holds. Then a missing file stops it, then a decode error, then any other read error, then missing keys (the reported list is `missing_keys` and is non-empty). Otherwise it succeeds, reporting the file's project_id and client_email. |
| Credentials.CheckGoogleCredentials | test_credentials.py:13-52 | True exactly when the variable is set and non-empty, the file exists, it parses as an object, and the object has all five required keys. An unset variable gives false. For a parsed object, the answer is whether `missing_keys` is empty. |
| Credentials.MissingFrom | test_credentials.py:36 | The filter keeps exactly the listed keys absent from the object, in list order when the list has no repetitions. |
| Credentials.MissingKeys | test_credentials.py:35-36 | `missing_keys` is exactly the required keys absent from the object, in the order type, project_id, private_key_id, private_key, client_email. It is empty exactly when every required key is present. |
| Credentials.ErrorsOf | test_credentials.py:61-71 | Checking attributes in order records at most one error per attribute. |
| Credentials.ErrorsOfMembers | test_credentials.py:63-69 | Each error names a checked attribute. An attribute is reported missing exactly when the module lacks it, and unconfigured exactly when its value is `None`, empty or "your-project-id". |
| Credentials.ErrorsOfNames | test_credentials.py:63-69 | Every recorded error names one of the checked attributes. |
| Credentials.ErrorsOfOrder | test_credentials.py:60-69 | Errors come in checking order: GCP_PROJECT_ID, then GCP_LOCATION, then GCS_BUCKET_NAME. |
| Credentials.ErrorsOfEmptyIff | test_credentials.py:63-73 | There are no errors exactly when every checked attribute exists and is configured. |
| Credentials.CheckConfig | test_credentials.py:60-80 | The loop collects exactly the specified errors for the three required attributes. It returns true exactly when the list is empty, which is exactly when all three are configured. |
| Credentials.RunChecks | test_credentials.py:82-103 | Both checks always run: the configuration errors are computed even when the credentials fail. The result is true exactly when both succeed. The summary lists the credentials problem first, then the configuration problem, each exactly when that check failed. |

## Behaviour worth noting

- `strip('"')` removes every leading and every trailing `"`, not just one enclosing pair (`DeepSeek.TrimUnwrapsQuotes`, with any numbers of quotes on each side).
- Non-empty content consisting only of whitespace and quotes does not always trim to the empty string. Whitespace is stripped before quotes, so whitespace between quotes survives: `" "` trims to one space (`DeepSeek.TrimKeepsSpaceBetweenQuotes`, for any whitespace character between the quotes). The exact condition is `DeepSeek.TrimEmptyIff`.
- Image descriptions are requested at temperature 0.4 (`DeepSeek.ImageTemperature`). The 0.7 branch of generators/text_gen_ds.py:58 never fires for the image instruction, which says "включать: объект" (generators/text_gen_ds.py:96) where the Gemini wrapper's instruction says "описание объекта" (generators/text_gen_gg.py:66). A post is requested at 0.7 only when its tone contains "описание" (`DeepSeek.PostTemperatureFollowsTone`).
- A rate limit on the last attempt still sleeps before the loop ends with `None` (`DeepSeek.EveryAttemptRateLimited`).
- `ResourceExhausted` is imported by the generator but never used. No exception type is treated specially: only the message text decides between retrying and giving up.

## Left out

- Logging, `print`, the real `time.sleep` and the wall clock. Sleeps are recorded in the ghost trace as events with their length in seconds.
- Construction of the OpenAI client, the API key, the base URL and the chat-completions call. The provider is a function from the attempt number to that attempt's outcome.
- `response.choices` being empty and `message.content` being `None` or `""` are one outcome, "empty content". The code treats them alike.
- The message of an exception is taken to be `str(e)`. Exceptions raised while building the message are not modelled.
- Text.Lower: `str.lower()` is modelled on ASCII letters only. For the "rate limit" test this is exact: the only non-ASCII characters whose lowercase contains ASCII letters are U+0130 and U+212A, and neither can complete the pattern.
- Temperature as a floating-point number. It is a two-valued tag, 0.7 or 0.4.
- Credentials: reading the environment, `os.path.exists`, `open` and `json.load` are inputs. A parsed file is modelled as a JSON object, from its keys to their printed values.
  - A top-level JSON value that is not an object (a list, a number) is not modelled. Membership tests on it would behave differently or raise.
- Credentials.Unconfigured: a configuration value is `None` or a string. Other falsy Python values (0, False, empty containers) are not modelled.
- The text of the printed messages. Errors and summary lines are datatype values.
- The process exit code of the checker's `__main__` block: it exits 0 when `main` returns true and 1 otherwise.
- generators/image_gen_gg.py (image generation, storage upload and signed URLs through the Google Cloud SDK) is not part of this model.
- generators/text_gen_gg.py (the Gemini wrapper) is not part of this model. It has no retry loop, and its trimming is the same expression as the one modelled here.
- test_rest.py, test-api.py, test_image_gen.py, test_text_ds.py, test_gg.py and the rest of test_text_gen.py are scripts that call live services and print the results. Only the ASCII check of test_text_gen.py:49 appears, as `Text.IsAscii`.

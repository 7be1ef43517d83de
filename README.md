# journal-starter: the LLM answer extractor, in Dafny

The journal service asks a language model to analyse a journal entry and return
a JSON object with `sentiment`, `summary` and `topics`. Before the answer is
validated against that schema, `extract_json` cleans it up:

1. it strips leading and trailing whitespace (`str.strip()`);
2. it searches the result for ```` ```(?:json)?\s*(\{.*\})\s*``` ```` with
   `re.DOTALL`;
3. it returns capture group 1 of the first match, or the stripped text when
   nothing matches.

`analyze_journal_entry` reads the answer at
`output.message.content[0].text` in the decoded response and passes it
through `extract_json` to the schema validator. It then returns the validated
fields together with the caller's `entry_id`. Any exception is logged and
re-raised.

This project models those steps and proves what they do. There is no general
regular-expression engine. `JsonExtract.FenceMatchAt` says, declaratively,
when the pattern matches at a position and what it captures. The matcher
(`MatchAt`, `SearchFrom`, `Search`) computes the match Python's backtracking
search reports, and it is proved against that predicate. The proved behaviour:

- The match is the leftmost one.
- The greedy `.*` runs the group to the last `}` that is followed by
  whitespace and a fence. So two fenced objects in one answer come back as a
  single capture running from the first `{` to the last `}` (`TwoBlocksMerge`).
- Under DOTALL the group may contain newlines, and even fences.
- The tag is case-sensitive and must stand alone. After ```` ```JSON ````,
  ```` ```python ```` or ```` ```jsonc ```` no match can start, and such a
  block comes back only stripped.
- The fallback is the stripped text. It comes back exactly when nothing
  matches. A captured group is always strictly shorter than the stripped text,
  so the two cases can be told apart.

Files:

- `wrappers.dfy`: `Option` and `Result`.
- `py_str.dfy`: the whitespace class shared by `str.strip()` and `\s`, and
  `str.strip()` itself.
- `extract_json.dfy`: the pattern, the matcher, `ExtractJson` and its
  properties.
- `envelope.dfy`: decoded JSON values, Python subscripting, and the answer path.
- `llm_service.dfy`: the part of `analyze_journal_entry` after decoding, with
  the validator as a parameter.

Three consequences of the code are worth stating:

- An unfenced answer is stripped before validation (api/services/llm_service.py:18).
- Validating a fenced object gives the same result as validating the bare
  object only when the object holds no fenced match of its own.
  `FencedEqualsBare` proves it for backtick-free objects.
- The docstring (api/services/llm_service.py:39) lists `created_at`, but
  `analyze_journal_entry` never sets it (see Left out).

## Model

| member | source | states |
|---|---|---|
| `PyStr.Strip` | api/services/llm_service.py:18 | the result has no whitespace at either end, and it is the input with a whitespace-only prefix and suffix removed |
| `PyStr.StripUnique` | api/services/llm_service.py:18 | any cut of a whitespace prefix and suffix that leaves a text starting and ending with non-whitespace (or nothing) is exactly `Strip`'s result |
| `PyStr.StripNoOp` | api/services/llm_service.py:18 | a text that does not start or end with whitespace is unchanged by stripping |
| `PyStr.StripIdempotent` | api/services/llm_service.py:18 | stripping twice equals stripping once |
| `PyStr.StripPadding` | api/services/llm_service.py:18 | whitespace added on either side is removed again |
| `PyStr.SkipSpaces` | api/services/llm_service.py:19 | greedy `\s*`: the run from i is all whitespace and stops at the end or at a non-whitespace character |
| `PyStr.SkipSpacesUnique` | api/services/llm_service.py:19 | a whitespace run that stops at non-whitespace is the one `\s*` takes, so `\s*` before a non-space literal has one way to match |
| `JsonExtract.LastClose` | api/services/llm_service.py:19 | backtracking of the greedy `.*\}\s*```` : the largest end whose `}` is followed by whitespace and a fence, and no larger one exists |
| `JsonExtract.ClosesAtIff` | api/services/llm_service.py:19 | the computed closing check holds exactly when some whitespace run from that point reaches a closing fence |
| `JsonExtract.BodyStartUnique` | api/services/llm_service.py:19 | every match at a position captures from the same `{`: with `json` present, skipping the optional tag never leads to a match |
| `JsonExtract.MatchAtCorrect` | api/services/llm_service.py:19 | the matcher at one position returns the greedy match there, and returns nothing exactly when the pattern cannot match there |
| `JsonExtract.SearchFrom` | api/services/llm_service.py:19 | `re.search` from a position: a returned match is greedy and no match starts before it; no result means no match starts at or after the position |
| `JsonExtract.Search` | api/services/llm_service.py:19 | a returned match is the leftmost-longest one; no result means the pattern matches nowhere |
| `JsonExtract.ExtractJson` | api/services/llm_service.py:17-22 | the stripped text is returned exactly when nothing matches; otherwise the result starts with `{` and ends with `}`; it is always a slice of the stripped input, never longer than the input |
| `JsonExtract.LeftmostLongestUnique` | api/services/llm_service.py:19-21 | there is only one leftmost-longest match |
| `JsonExtract.ExtractJsonLeftmostLongest` | api/services/llm_service.py:19-21 | for the leftmost match whose group runs to the last closing `}`, the result is exactly that group |
| `JsonExtract.ExtendMatch` | api/services/llm_service.py:19 | a match can be re-ended at any later `}` followed by whitespace and a fence |
| `JsonExtract.GreedyEndsAtLastClosingBrace` | api/services/llm_service.py:19 | no `}` after the greedy group's end is followed by whitespace and a closing fence |
| `JsonExtract.SingleBlockMatch` | api/services/llm_service.py:19 | in a text made of backtick-free prose and one fenced block, the search reports exactly that block's group |
| `JsonExtract.FencedBlockYieldsBody` | api/services/llm_service.py:17-22 | wrapped equals unwrapped: a braced object in one fenced block, tagged `json` or untagged, with any whitespace and any backtick-free prose in front, is returned exactly, newlines included |
| `JsonExtract.JsonFencedYieldsBody` | api/services/llm_service.py:19-21 | `extract_json("```json\n" + s + "\n```") == s` for every s that starts with `{` and ends with `}` |
| `JsonExtract.BareFencedYieldsBody` | api/services/llm_service.py:19-21 | `extract_json("```\n" + s + "\n```") == s` for every s that starts with `{` and ends with `}` |
| `JsonExtract.ProseBeforeFence` | api/services/llm_service.py:19-21 | backtick-free prose before the fence is skipped: the match starts at the fence |
| `JsonExtract.TwoBlocksMerge` | api/services/llm_service.py:19-21 | with two fenced objects, the capture runs from the first `{` to the last `}` and includes the fences between them |
| `JsonExtract.NoBacktickNoMatch` | api/services/llm_service.py:19 | a text without backticks has no match anywhere |
| `JsonExtract.FencedEqualsBare` | api/services/llm_service.py:17-22 | a backtick-free braced object is returned unchanged, and fencing it, tagged or not, gives the same result |
| `JsonExtract.UnknownTagNoMatchAt` | api/services/llm_service.py:19 | after a fence, anything other than whitespace, `{` or a lowercase `json` that stands alone stops a match at that fence |
| `JsonExtract.FencesOnlyAtEnds` | api/services/llm_service.py:19 | a fence-wrapped text whose inside has no backtick has fences only at its two ends |
| `JsonExtract.UnknownTagBlockUnchanged` | api/services/llm_service.py:18-22 | a single block whose tag is not exactly `json` is returned only stripped |
| `JsonExtract.UppercaseTagBlockUnchanged` | api/services/llm_service.py:18-22 | a ```` ```JSON ```` block is returned only stripped |
| `JsonExtract.PythonTagBlockUnchanged` | api/services/llm_service.py:18-22 | a ```` ```python ```` block is returned only stripped |
| `Envelope.GetKey` | api/services/llm_service.py:75 | `j[key]`: the value when j is a dict holding the key, KeyError naming the key when j is a dict without it, TypeError otherwise |
| `Envelope.GetIndex` | api/services/llm_service.py:75 | `j[i]`: the element of a list (a one-character str of a str), IndexError past the end, KeyError on a dict, TypeError otherwise |
| `Envelope.AnswerAt` | api/services/llm_service.py:75 | succeeds exactly when `output.message.content` is a non-empty list whose first element has `text`, and then yields that value; a missing `output` is a KeyError and an empty `content` an IndexError, never a default |
| `Envelope.AnswerAtEnvelopeOf` | api/services/llm_service.py:75 | reading the path from an envelope built around a value gives back that value |
| `Envelope.LaterContentIgnored` | api/services/llm_service.py:75 | elements of `content` after the first do not change the answer |
| `LlmService.Assemble` | api/services/llm_service.py:78 | the record carries exactly the given entry id, and its fields are the validated ones unchanged |
| `LlmService.AsText` | api/services/llm_service.py:18 | `.strip()` applies only to a str; any other answer raises AttributeError |
| `LlmService.AnalyzeJournalEntry` | api/services/llm_service.py:75-81 | succeeds exactly when the path holds a str that the validator accepts after extraction; then it returns the caller's entry id and the validated fields unchanged; path, type and validation failures are re-raised as they are |
| `LlmService.EntryIdOnlyLabels` | api/services/llm_service.py:78 | two calls on the same response with different entry ids succeed or fail together, with equal fields and each with its own id |
| `LlmService.FencedAnswerAnalysedLikeBare` | api/services/llm_service.py:75-78 | for every validator, a fenced backtick-free object answer gives the same result as the bare object |
| `LlmService.UnfencedAnswerValidatedStripped` | api/services/llm_service.py:75-78 | when the answer has no fenced match, the validator sees exactly the stripped answer |

## Left out

- The Bedrock client and the call itself are not modelled (api/services/llm_service.py:41-44, 66-74). This covers `invoke_model`, reading and decoding the body, and `json.dumps`/`json.loads`. These are foreign network and serialisation calls. The decoded body is the parameter `envelope` of `AnalyzeJournalEntry`.
- The prompt template, the model id and the message list (lines 46-63) are not modelled. They only feed the network call, so `entry_text` does not appear in the model.
- `LlmResponse.model_validate_json` is the function parameter `validate`. Its schema rules are defined in models/entry.py, which is not part of this model.
- Any validation that `AnalysisResponse(...)` itself performs is not modelled, and neither is a `created_at` default it may add. Both are defined in models/entry.py, which is not part of this model.
- Logging (line 80) is a side effect only. The environment and `.env` set-up (lines 13-14) is global configuration. Neither is modelled.
- The HTTP router (api/routers/journal_router.py) and app set-up (api/main.py) are routing, persistence and configuration plumbing. Neither is modelled.
- `async` suspension is not modelled. The modelled steps are sequential and have no shared state.
- PyStr.IsSpace lists the characters Python's `str.isspace` accepts, with no proof that the list matches Python's table. The proofs use that `\n` is whitespace and that the delimiter and tag characters (`` ` ``, `{`, `}`, `j`, `s`, `o`, `n`, `J`, `p`) are not.
- JSON numbers are integers only. Floats matter here only as values that cannot be subscripted, and they behave exactly like integers in that respect.
- JSON objects are maps. The handling of duplicate keys by `json.loads` (the last one wins) is not modelled.
- Exception messages are not modelled. Only the kind of exception (KeyError and its key, IndexError, TypeError, AttributeError, a validation error) is kept.

# Infisical secrets action: header parser and authentication outcome

This project models the decision logic of the action's entry point,
`src/index.ts`, and proves properties of it in Dafny.

- **`parseHeadersInput`** turns the free-form `extra-headers` input into a
  header map, in module `Headers`:
  - it splits the text on `"\n"`, trims every line and drops the blank ones;
  - it cuts each line at its first `:`;
  - the key is the trimmed, lower-cased text before the `:`, and the value
    is the trimmed text after it;
  - a repeated key whose stored value is non-empty gets the new value joined
    on with `", "`; otherwise the new value is stored as is.

  The pipeline is a pure function (`HeaderLines`, `ParseLine`). The
  reduce step that updates the accumulator object is the loop of the method
  `ParseHeadersInput`. That method is proved equal to the fold `Fold` of the
  one-line update `Step`.
- **The JavaScript string built-ins** the parser uses are modelled over
  `seq<char>` with their ECMAScript meaning, in module `JsStrings`:
  `trim`, `toLowerCase`, `indexOf`, `substring`, `split` and `join`.
- **`main`** is modelled in module `Action`:
  - the `switch` that validates the method's credentials and chooses the
    login flow (`SelectFlow`);
  - the login call, as a parameter;
  - the outcome handling (register the secret, export `INFISICAL_TOKEN`,
    report success, or `setFailed` with the thrown message).

  The host's effects are recorded as a trace of events. The method
  `Authenticate` is the `switch` and the outcome handling as written; it is
  proved equal to the trace function `Outcome`, and the outcome discipline
  is proved about `Outcome`. The method `Run` is the whole of `main`: it
  parses the extra headers, builds the client, then authenticates. Its
  contract gives its trace as the client event followed by `Outcome`; the
  success and failure properties are proved about `Outcome`, and
  `ClientFirst` carries them over to that whole trace.

The three files are `js_strings.dfy`, `headers.dfy` and `action.dfy`, and
they are verified together.

Two behaviours of the code worth knowing:
- A line without `:` is filed under the empty key, and the whole trimmed
  line is its value. This is because `indexOf` gives -1 and
  `substring(0, -1)` is empty.
- Errors are plain messages: the exact strings the code throws, and the
  login's own message for a failed login. They are not a typed error
  taxonomy.

## Model

| member | source | states |
|---|---|---|
| JsStrings.Trim | src/index.ts:15 | `trim` leaves no white space (ECMAScript WhiteSpace or LineTerminator) at either end and never lengthens the text |
| JsStrings.TrimStart | src/index.ts:15 | the leading half of `trim`: never lengthens the text, and the result does not start with white space (its exact effect is `TrimStartDropsSpace`) |
| JsStrings.TrimEnd | src/index.ts:15 | the trailing half of `trim`: never lengthens the text, and the result does not end with white space (its exact effect is `TrimEndDropsSpace`) |
| JsStrings.TrimStartDropsSpace | src/index.ts:15 | the leading trim keeps a suffix of the line and drops white space only |
| JsStrings.TrimEndDropsSpace | src/index.ts:15 | the trailing trim keeps a prefix of the line and drops white space only |
| JsStrings.TrimEndKeepsFirst | src/index.ts:15 | the trailing trim keeps the first character of text that starts with a non-space |
| JsStrings.TrimIsPiece | src/index.ts:15 | the trimmed line is a contiguous slice of the line |
| JsStrings.TrimEmptyIffAllSpace | src/index.ts:15-16 | a line trims to "" exactly when it is all white space |
| JsStrings.TrimStartAllSpace | src/index.ts:15 | white-space-only text loses everything to the leading trim |
| JsStrings.TrimOfTrimmed | src/index.ts:15 | trimming is idempotent: trimmed text is its own trim |
| JsStrings.LowerChar | src/index.ts:21 | an ASCII capital is replaced by its lower-case letter (code point + 32); every other character is kept |
| JsStrings.LowerCharKeepsSpace | src/index.ts:21 | lower-casing neither creates nor removes white space |
| JsStrings.ToLower | src/index.ts:21 | `toLowerCase` keeps the length, lowers every character in place, and leaves no capital letter |
| JsStrings.ToLowerKeepsTrimmed | src/index.ts:21 | a trimmed name stays trimmed after lower-casing |
| JsStrings.TrimToLower | src/index.ts:21 | trimming and lower-casing commute |
| JsStrings.IndexOf | src/index.ts:20 | `indexOf` returns -1 or a position in range that holds the character searched for |
| JsStrings.IndexOfNoEarlier | src/index.ts:20 | no occurrence comes before the position found, and none at all when it returns -1 |
| JsStrings.IndexOfAbsent | src/index.ts:20 | a line without `:` gives -1 |
| JsStrings.IndexOfFirst | src/index.ts:20 | the first occurrence is the position returned |
| JsStrings.Clamp | src/index.ts:21-22 | a `substring` bound is clamped into `[0, length]`, and a bound already in range is kept |
| JsStrings.Substring | src/index.ts:21-22 | `substring` never returns more than the whole text |
| JsStrings.SubstringInRange | src/index.ts:21-22 | bounds that are in order and in range select exactly that slice |
| JsStrings.SubstringBelowZero | src/index.ts:21 | bounds at or below zero select "", so `substring(0, -1)` is empty |
| JsStrings.SubstringSwapped | src/index.ts:21-22 | swapping the two bounds gives the same result |
| JsStrings.Split | src/index.ts:14 | `split("\n")` always returns at least one piece |
| JsStrings.SplitThenJoin | src/index.ts:14 | joining the pieces of a split with the separator gives back the original text |
| JsStrings.SplitAtFirst | src/index.ts:14 | the first piece ends at the first separator, and the rest is the split of what follows it |
| JsStrings.SplitAfterPiece | src/index.ts:14 | text with no separator, followed by a separator, is one piece followed by the pieces of the rest |
| JsStrings.SplitInsidePiece | src/index.ts:14 | a separator inside the first part ends the first piece there |
| JsStrings.SplitAround | src/index.ts:14 | the split of `a + "\n" + b` is the pieces of `a` followed by the pieces of `b` |
| JsStrings.SplitAllSpace | src/index.ts:14-16 | every piece of white-space-only text is white space only |
| JsStrings.JoinWith | src/index.ts:24 | `join` starts with its first piece |
| JsStrings.JoinWithCons | src/index.ts:24 | joining a piece in front of others puts that piece and the separator first |
| JsStrings.JoinWithAppend | src/index.ts:24 | joining one more piece appends the separator and that piece |
| Headers.TrimEach | src/index.ts:15 | `map(trim)` keeps the number of lines and trims each one in place |
| Headers.DropEmpty | src/index.ts:16 | `filter` keeps only non-empty lines taken from its input, never adds lines, and gives nothing when every line is empty |
| Headers.HeaderLines | src/index.ts:13-16 | every line that reaches the reduce step is non-empty and trimmed |
| Headers.DropEmptyOne | src/index.ts:16 | the filter keeps a single line exactly when it is non-empty |
| Headers.DropEmptyKeepsNonEmpty | src/index.ts:16 | every non-empty line survives the filter |
| Headers.HeaderLinesOfLine | src/index.ts:13-16 | text without a line break yields its trimmed self as the one header line, or nothing when it is blank |
| Headers.OneLineInput | src/index.ts:10-34 | a single non-blank line gives a map with exactly one entry: that line's name and value |
| Headers.KeyOf | src/index.ts:20-21 | definition: the name is the text before the first `:`, trimmed and lower-cased; its properties are stated by `CutAtFirstColon`, `SplitsAtFirstColon`, `NoColonLine`, `NamesIgnoreCase` and `ParseLineNormalized` |
| Headers.ValueOf | src/index.ts:20-22 | definition: the value is the text after the first `:`, trimmed, or the whole trimmed line when there is none; stated by `CutAtFirstColon`, `SplitsAtFirstColon`, `NoColonLine` and `ParseLineNormalized` |
| Headers.ParseLine | src/index.ts:20-22 | definition: the header of one line, `KeyOf` and `ValueOf` together; stated by the same lemmas, and `CutLine` is proved equal to it |
| Headers.ParseLineNormalized | src/index.ts:20-22 | the name a line is filed under is trimmed and lower-case, and its value is trimmed |
| Headers.CutAtFirstColon | src/index.ts:20-22 | a line whose first `:` is at position k has the trimmed, lower-cased text before k as its name and the trimmed text after k as its value |
| Headers.SplitsAtFirstColon | src/index.ts:20-22 | `name:value` with a colon-free name parses to the trimmed, lower-cased name and the trimmed value, and the value may itself hold colons |
| Headers.NoColonLine | src/index.ts:20-22 | a line without `:` is filed under the empty key with the whole trimmed line as its value |
| Headers.NamesIgnoreCase | src/index.ts:21 | names that differ only in letter case are filed under one key |
| Headers.Step | src/index.ts:23-27 | one reduce step adds the line's name to the keys and leaves every other key's value unchanged |
| Headers.CutLine | src/index.ts:20-22 | the callback's `seperator`, `key` and `value` computation yields the line's parsed header |
| Headers.AddLine | src/index.ts:19-28 | the callback as written (the truthiness test, then join or overwrite) performs exactly one `Step` |
| Headers.ParseHeadersInput | src/index.ts:10-34 | the loop over the header lines returns the fold of the parsed lines, and all of its keys are trimmed and lower-case |
| Headers.Fold | src/index.ts:18-31 | definition: the reduce as a left fold of `Step` from the empty object; stated by `FoldAppend`, `FoldPrefix`, `FoldKeys`, `FoldMergesValues`, `RepeatedKeyJoins`, `NewKeyStored` and `EmptyStoredValueReplaced` |
| Headers.ParseHeaders | src/index.ts:10-34 | definition: what `parseHeadersInput` returns for the raw text, the fold of the parsed header lines; stated by `KeysNormalized`, `ParseMergesValues`, `OneLineInput`, `WhiteSpaceInputIsEmpty` and `BlankLinesIgnored`, and `ParseHeadersInput` is proved equal to it |
| Headers.FoldAppend | src/index.ts:18-31 | reducing one more line applies one more step to the accumulator |
| Headers.FoldPrefix | src/index.ts:18-31 | the accumulator after i + 1 lines is one step past the accumulator after i lines |
| Headers.FoldKeys | src/index.ts:18-31 | the keys of the result are exactly the names of the lines |
| Headers.NamesNormalized | src/index.ts:21 | every name produced from the lines is trimmed and lower-case |
| Headers.KeysNormalized | src/index.ts:10-34 | every key of the returned map is trimmed and lower-case |
| Headers.ValuesFor | src/index.ts:18-31 | definition: the values of the lines filed under a key, in the order they appear; the input of the reference definition `FoldMergesValues` |
| Headers.SkipLeadingEmpty | src/index.ts:23-26 | the values that survive the truthiness test start with a non-empty one |
| Headers.SkipLeadingEmptyAppend | src/index.ts:23-26 | a later value is joined onto the surviving values, or starts them when none survive and it is non-empty |
| Headers.FoldMergesValues | src/index.ts:18-31 | reference definition: a key is present exactly when some line is filed under it; its value is those lines' values, in first-seen order from the first non-empty one on, joined with ", " |
| Headers.ParseMergesValues | src/index.ts:10-34 | the reference definition of the stored values holds for the parser's result |
| Headers.RepeatedKeyJoins | src/index.ts:23-24 | a repeated key whose stored value is non-empty becomes `old + ", " + new`, and no other key changes |
| Headers.NewKeyStored | src/index.ts:23-26 | a name not yet present is stored with the line's value, and no other key changes |
| Headers.EmptyStoredValueReplaced | src/index.ts:23-26 | a repeated key whose stored value is empty is overwritten by the new value, and no other key changes |
| Headers.DropEmptyAppend | src/index.ts:16 | filtering distributes over concatenation |
| Headers.HeaderLinesAround | src/index.ts:13-16 | the header lines of `a + "\n" + b` are those of `a` followed by those of `b` |
| Headers.WhiteSpaceHasNoHeaderLines | src/index.ts:13-16 | white-space-only text, blank lines included, yields no header line |
| Headers.WhiteSpaceInputIsEmpty | src/index.ts:11-16 | empty or white-space-only input, including a missing input read as "", gives the empty map |
| Headers.BlankLinesIgnored | src/index.ts:13-16 | inserting a run of blank or white-space-only lines between two texts leaves the result unchanged |
| Action.HasCredentials | src/index.ts:53-75 | definition: the credentials the requested method needs are non-empty (JavaScript truthiness of a string); `SelectFlow` succeeds exactly when it holds |
| Action.SelectFlow | src/index.ts:51-86 | selection succeeds exactly when the method is known and its credentials are non-empty; the chosen flow belongs to the requested method; an unknown method fails with "Invalid authentication method: " followed by the method |
| Action.UniversalNeedsBoth | src/index.ts:52-55 | universal auth with an empty client id or secret fails with "Missing universal auth credentials", whatever else is given |
| Action.IdentityMethodsNeedIdentity | src/index.ts:63-77 | OIDC and AWS IAM with an empty identity id fail, each with its own message |
| Action.SelectedFlowArguments | src/index.ts:56-82 | the chosen flow carries the inputs unchanged; the OIDC audience is passed through and may be empty |
| Action.SelectionIgnoresUnusedInputs | src/index.ts:51-86 | inputs the requested method does not read cannot change the selection |
| Action.Exchange | src/index.ts:51-86 | definition: the selection followed by the login it selects, giving the token or the message of the first error thrown; `OutcomeOnSuccess` and `OutcomeOnFailure` split on it |
| Action.Outcome | src/index.ts:51-93 | definition: the trace of the `switch` and outcome handling; stated by `OutcomeMasksBeforeExport`, `OutcomeLogsInOnce`, `OutcomeOnSuccess` and `OutcomeOnFailure`, and `Authenticate` is proved equal to it |
| Action.OutcomeMasksBeforeExport | src/index.ts:88-89 | every exported value was registered as a secret earlier in the run |
| Action.OutcomeLogsInOnce | src/index.ts:51-86 | a login is called exactly once and first when the selection succeeds, and never when it fails |
| Action.NoLoginCounted | src/index.ts:51-86 | helper for `OutcomeLogsInOnce`: a trace without login events counts no login |
| Action.OutcomeOnSuccess | src/index.ts:88-91 | after a successful login the token is exported as `INFISICAL_TOKEN`, the run ends with the success message, and nothing is reported as failed |
| Action.OutcomeOnFailure | src/index.ts:92-93 | any error thrown, by validation or by the login, ends the run in `setFailed` with its message, and nothing is registered or exported |
| Action.Authenticate | src/index.ts:51-93 | the `switch` and outcome handling as written, assigning the token in each case or throwing, produce exactly the trace `Outcome` |
| Action.Run | src/index.ts:36-95 | `main` first builds the client from the domain and the parsed extra headers, then produces the authentication trace |
| Action.ClientFirst | src/index.ts:44-49 | with the client event first, the whole trace of `main` keeps every property of `Outcome`: the login count, secret registration before export, on success the export, the success message last and no failure, on failure `setFailed` with the message last and nothing registered or exported |
| Action.PrependKeepsMasked | src/index.ts:49 | an event other than an export, put in front of a trace, keeps every export preceded by its secret's registration |

## Left out

- `@actions/core` (`getInput`, `setSecret`, `exportVariable`, `info`, `setFailed`): host effects. They are recorded as trace events, and the inputs are given as values. `getInput`'s own trimming of an input is not modelled.
- `UALogin`, `oidcLogin`, `awsIamLogin` (`./infisical`): their bodies are not part of this model. They are network calls, including the AWS request signing and the OIDC ambient token. Together they are the parameter `login`, which returns a token or the message of the error it throws.
- `createAxiosInstance`: not part of this model. Building the client is the event `CreateClient`, which carries the domain and the parsed header map.
- `AuthMethod` (`./constants`): the literal values are not part of this model. They are the abstract constructors `Universal`, `Oidc` and `AwsIam`; any other input is `Other(text)`.
- `async`/`await`: it is irrelevant to the order of the effects. `main` is modelled as one sequential run.
- A thrown value that is not an `Error`: `(err as Error)?.message` would be `undefined`. Every error is modelled as carrying a string message.
- JsStrings.ToLower: lower-cases ASCII letters only. Full Unicode case mapping, which `toLowerCase` performs, is outside the model.
- JsStrings.Trim: the white-space set is listed out as code points. It holds TAB, VT, FF, U+FEFF, every space separator (general category Zs) of current Unicode, and the four line terminators. A code point that a later Unicode version adds to category Zs would not be included.
- Headers.Step: the result object is modelled as a plain map. JavaScript prototype quirks are not modelled: a key such as `constructor` reads an inherited member, which is truthy, and `__proto__` does not become an own property.
- Action.Run: the calls inside the `try` block are taken never to throw. These are `createAxiosInstance` (line 49) and `setSecret`, `exportVariable` and `info` (lines 88-91). In the source, a throw from any of them also reaches `setFailed`. For example, an `exportVariable` that fails after `setSecret` would give the events login, register secret, `setFailed`. `Outcome` cannot produce that trace, so `Run`, `OutcomeOnSuccess` and `ClientFirst` rest on this assumption.

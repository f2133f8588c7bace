# Relayer core: proof calldata and transfer subjects

The relayer watches a mailbox for emails that ask it to move funds. Its core
does two things, and this project models both:

- **Calldata assembly** (`src/chain.rs`). The relayer names two artifact
  files from a directory and a nonce: the prover's `rapidsnark_proof_<nonce>.json`
  and `rapidsnark_public_<nonce>.json`. It reads the fixed positions `pi_a[0..1]`,
  `pi_b[0..1][0..1]` and `pi_c[0..1]` from the proof document. It reads the
  whole public-signals array from the public document. Each entry is a
  decimal string and becomes a 256-bit unsigned integer. The resulting
  `CircomCalldata` is what the `transfer` contract call receives.
- **Subject validation** (`src/main.rs`, `validate_email`). The subject is
  searched, unanchored, for the pattern
  `[Ss]end ?\$?(\d+(\.\d{1,2})?) (eth|usdc) to (.+@.+(\..+)+)`. Only when the
  pattern is found is the acknowledgment `Send valid! Validating proof...`
  sent to everyone on the email.

Modules:

- `Wrappers` (`wrappers.dfy`): `Option` and `Result`.
- `Json` (`json.dfy`): a parsed JSON value. Indexing by a missing key, by a
  position past the end, or into the wrong kind of value gives `Null`, as
  indexing a `serde_json::Value` does.
- `Decimal` (`decimal.dfy`): `U256::from_dec_str` is modelled as a left fold
  `acc * 10 + digit` that fails on the first non-digit (`InvalidCharacter`).
  It also fails as soon as the accumulator would reach 2^256 (`InvalidLength`).
  The fold is proved against the reference value `DecValue`.
- `Chain` (`chain.dfy`): the file names, the fixed-shape extraction, the
  defaults of `get_calldata`, and the arguments of the `transfer` call. The
  file system is a map from path to the document already parsed. Every
  `unwrap` that would abort the program is an explicit `AssemblyError`.
- `Subject` (`subject.dfy`): the pattern has two definitions. One is a
  declarative language stated over positions of the subject (`LeadIn`,
  `AmountIn`, `TokenPhraseIn`, `RecipientIn`, `TransferIn`): `TransferIn(s, p, q)`
  says that the characters of `s` from `p` up to `q` are one match. The other
  is a deterministic recognizer that is tried at every start position.
  `IsMatch` is proved equal to "some stretch of the subject is a transfer".
- `Relayer` (`relayer.dfy`): the decision `validate_email` takes.

## Model

| member | source | states |
|---|---|---|
| Decimal.FromDecStr | src/chain.rs:78 | A string converts exactly when it is all ASCII digits and its value is below 2^256, and the result is that value. An all-digit string whose value is 2^256 or more fails with `InvalidLength`, and a leading non-digit fails with `InvalidCharacter`. |
| Decimal.FoldDigitsSpec | src/chain.rs:78 | The fold from accumulator `acc` succeeds exactly when the rest is all digits and `acc * 10^n + value` stays below 2^256, and then it yields that number. Otherwise an all-digit rest fails with `InvalidLength`. |
| Chain.ProofPath | src/chain.rs:69 | The proof file name is the directory, then `rapidsnark_proof_`, then the nonce, then `.json`, with no separator added. |
| Chain.PublicPath | src/chain.rs:73 | The public file name is the directory, then `rapidsnark_public_`, then the nonce, then `.json`, with no separator added. |
| Chain.PathsDistinct | src/chain.rs:69-73 | For a fixed directory, each file name determines its nonce, and the proof file is never the public file. |
| Chain.ParseEntry | src/chain.rs:78 | One entry converts exactly when it is a JSON string spelling a decimal below 2^256, and the result is that number. An entry that is not a string (null, number, array, object) fails with `NotAString`. |
| Chain.ParseSignals | src/chain.rs:98-103 | The signals convert exactly when every element converts. The list then has one number per element, in the array's order. |
| Chain.ParseProof | src/chain.rs:77-96 | The proof document converts exactly when all eight fixed entries convert. `pi_a` and `pi_c` are the values of entries 0 and 1, in that order, and `pi_b[i][j]` is the value of `proof["pi_b"][i][j]`. |
| Chain.ProofReadAtFixedPositions | src/chain.rs:77-96 | Two proof documents with the same entries at the eight fixed positions give the same points or the same error. |
| Chain.ParseFilesIntoCalldata | src/chain.rs:64-112 | Succeeds exactly when both files exist, all eight proof positions convert, and the public document is an array whose elements all convert. `pi_a`/`pi_c` are entries 0 and 1 in order, and `pi_b[i][j]` is `proof["pi_b"][i][j]`. `signals` has the array's length, and element k is public element k. A missing proof file, then a missing public file, then a non-array public document give their own errors. |
| Chain.OnlyFixedPositionsRead | src/chain.rs:77-96 | Two proof documents that agree at the eight fixed positions give the same result, so entries past index 1 and other keys are ignored. |
| Chain.GetCalldata | src/chain.rs:53-60 | A missing directory becomes `""` and a missing nonce becomes `17689783363368087877`. Given values pass through unchanged to the assembly. |
| Chain.TransferCallFor | src/chain.rs:150-180 | The contract call exists exactly when the assembly succeeds; otherwise it carries the assembly's error. The call is `transfer` with `(pi_a, pi_b, pi_c, signals)` in that order, each taken from the two documents and not from any fixed numbers. |
| Subject.DigitsEnd | src/main.rs:105 | Returns the end of the longest run of ASCII digits starting at `i`. |
| Subject.LineEnd | src/main.rs:105 | Returns the end of the longest run of characters other than a line feed starting at `i` (what `.+` may cover). |
| Subject.IndexOf | src/main.rs:105 | Returns the first position of `c` in a range, or `None` when `c` does not occur there. |
| Subject.DotGroupsShape | src/main.rs:105 | `(\..+)+` accepts exactly the stretches of length 2 or more that start with `.`. |
| Subject.RecipientAt | src/main.rs:105 | The recipient recognizer at `i` succeeds exactly when some stretch starting at `i` is a recipient: text, `@`, text, then `.` and text, on one line. |
| Subject.TokenPhraseAt | src/main.rs:105 | The token recognizer at `i` succeeds exactly when some stretch starting at `i` is ` eth to <recipient>` or ` usdc to <recipient>`. |
| Subject.AmountPhraseAt | src/main.rs:105 | The amount recognizer at `i` succeeds exactly when some stretch starting at `i` is digits, then an optional `.` with one or two digits, then a token phrase. |
| Subject.TransferAt | src/main.rs:105 | The recognizer at `i` succeeds exactly when some stretch starting at `i` is a whole transfer request. |
| Subject.SearchFromSpec | src/main.rs:107 | Trying positions `p` to `n` in turn succeeds exactly when the test holds at one of them. |
| Subject.RecognizedSomewhere | src/main.rs:105-107 | The recognizer succeeds at some position exactly when some stretch of the subject is a transfer request. |
| Subject.SearchSpec | src/main.rs:105-107 | Trying the recognizer at every position of the subject succeeds exactly when some stretch of it is a transfer request. |
| Subject.IsMatch | src/main.rs:105-107 | The unanchored search succeeds exactly when some stretch of the subject is a transfer request. |
| Subject.TransferStartsWithVerb | src/main.rs:105 | Every transfer request begins with `Send` or `send`: only the verb's first letter may be upper case. |
| Subject.TransferEndsWithAddress | src/main.rs:105 | Every transfer request ends with an address: an `@` after the verb, then a `.` at least two places later, then at least one more character. |
| Subject.TransferOnOneLine | src/main.rs:105 | No transfer request contains a line feed. |
| Subject.TransferAtPositions | src/main.rs:105 | A lead, digits, an optional fraction, ` eth to ` or ` usdc to `, and an address on one line with an `@` and a later `.`, placed one after the other, form a transfer request. |
| Subject.TransferCopied | src/main.rs:107 | A transfer request copied into another string, at any offset, is a transfer request there too. |
| Subject.MatchInContext | src/main.rs:107 | Text before and after a matching subject does not stop it from matching. |
| Subject.TransferInContext | src/main.rs:107 | A transfer request anywhere inside a subject makes the subject match. |
| Subject.NoMatchWithoutVerb | src/main.rs:105-107 | A subject with no `n` (and hence no `Send`/`send`) never matches. |
| Subject.MatchOnlyAtVerb | src/main.rs:105-107 | When the subject's only `n` is at `v + 2`, it matches exactly when the recognizer succeeds at `v`. |
| Subject.AmountExamples | src/main.rs:105 | `5`, `5.5` and `5.50` are amounts. |
| Subject.SurroundedTransfer | src/main.rs:105 | In `Please send 5 eth to a@b.com thanks`, the characters from 7 up to 28 are a transfer request. |
| Subject.DollarTransfer | src/main.rs:105 | `Send $5.50 usdc to a@b.com` is a transfer request from end to end. |
| Subject.AcceptedExamples | src/main.rs:105-107 | `Please send 5 eth to a@b.com thanks` and `Send $5.50 usdc to a@b.com` match. |
| Subject.LongFractionRejected | src/main.rs:105 | The recognizer rejects `send 5.555 eth to a@b.com` at its start. |
| Subject.UpperTokenRejected | src/main.rs:105 | The recognizer rejects `send 5 ETH to a@b.com` at its start. |
| Subject.UpperVerbRejected | src/main.rs:105-107 | `SEND 5 eth to a@b.com` does not match. |
| Subject.PlainTextRejected | src/main.rs:107 | `hello world` does not match. |
| Subject.LongFractionNotFound | src/main.rs:105-107 | `send 5.555 eth to a@b.com` does not match: three digits after the point. |
| Subject.UpperTokenNotFound | src/main.rs:105-107 | `send 5 ETH to a@b.com` does not match: the token is lower case only. |
| Relayer.ValidateEmail | src/main.rs:99-112 | The email is acknowledged exactly when the subject and sender were extracted and some stretch of the subject is a transfer request. The acknowledgment answers the raw email with `Send valid! Validating proof...`. A failed extraction of either aborts. |
| Relayer.SenderIgnored | src/main.rs:101-109 | The extracted sender does not affect the decision. |
| Relayer.AcknowledgedInContext | src/main.rs:107-109 | An acknowledged subject stays acknowledged with text added before and after it. |

## Left out

- The IMAP wait and fetch loop, the printing of envelopes, and delivering the reply over SMTP are network I/O. The model records only the decision to request a reply to all.
- Whether the acknowledgment is actually delivered depends on `smtp_client`, which is not part of this model; the model stops at the `reply_all` request.
- `extract_subject` and `extract_from` live in `parse_email`, which is not part of this model. Their results are inputs of `Relayer.ValidateEmail`, and `None` stands for the failure that `unwrap` turns into a panic.
- `custom_reply` in `validate_email` is computed and never used, so it is not modelled.
- `handle_email` hashes with the standard library's opaque hasher, writes a file and sleeps. These are foreign calls and I/O.
- Loading the environment and dotenv configuration.
- In `send_to_chain`: the provider, the RPC URL, the random or hex-key wallet and the `test` flag that chooses between them, the ABI file, and the asynchronous `send`. These are chain-client I/O and cryptography. The placeholder numbers that function defines are never passed to the call.
- The hard-coded `main` of `src/chain.rs` and the tokio runtime.
- Reading the files and parsing JSON text. The file system is a map from path to parsed document. A path outside the map stands for a file that cannot be read or parsed, and gives `Unreadable`.
- Subject.DigitsEnd: `\d` is matched against ASCII `0`-`9` only. The regex crate's `\d` is Unicode-aware, so subjects using other decimal digits are out of scope.
- Decimal.FromDecStr: the empty string converts to 0, which is what the left fold yields. The library's own behaviour on empty input is not part of this model. An empty entry is therefore accepted as 0.
- Decimal.FromDecStr: when a string overflows before a later non-digit, the fold reports `InvalidLength`. The contract pins the error kind only for an all-digit overflow and for a leading non-digit.
- Decimal.FromDecStr: only the two error kinds the conversion can return are kept. Their messages are not modelled.

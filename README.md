# Echo language-learning services, modelled in Dafny

Echo is a language-learning application. It is an ASP.NET backend
(EchoAPI) plus three Python AI services: Phi-3 chat through Ollama, Piper
text-to-speech and Whisper speech-to-text. This project models the parts
of it that have sequential behaviour of their own, and proves their
properties:

- **The Phi-3 conversation store** (`phi3_service.dfy`, module `Phi3`).
  - A class holding the map from conversation id to message history.
  - Conversation creation, and the chat turn with its history limit, which
    keeps the system message and the `2·max_history − 1` most recent messages.
  - The one-off correction conversation, and conversation deletion.
  - The Ollama call is a function parameter. It returns the reply text or a
    failure.
- **The correction-reply parser** (`correction_parser.dfy`, module
  `CorrectionParser`).
  - The `CORRECTED:` / `CORRECTIONS:` / `EXPLANATION:` splitting of
    `correct_text`, with the loop that collects the dash lines.
  - A proof that a reply written in the format the prompt asks for is read
    back field for field.
  - It builds on `text.dfy` (module `Text`): Python's `strip`, `in`,
    `startswith` and `split`, with the round trip `"sep".join(s.split(sep)) == s`.
- **The request validators** of the three services (`phi3_schemas.dfy`,
  `piper_schemas.dfy`, `whisper_schemas.dfy`).
- **The account and vocabulary services of EchoAPI** (`user_service.dfy`,
  `vocabulary_service.dfy`), over the soft-delete tables and repository
  queries of `entities.dfy` and `repositories.dfy`.
  - Hashing, password verification and token issuing are function-valued
    fields of `UserService`. The clock is a parameter.
  - Every method states its whole new table.
  - Every method keeps the primary-key invariant, and `UserService` also
    keeps "no two live accounts share an email".
  - Tables change only in the ways `UserHistory` / `VocabularyHistory`
    allow: rows are appended, keys and owners stay fixed, and a
    soft-deleted row never changes again.

Three behaviours of the C# code are kept as written, not corrected:

- `LoginAsync` calls `VerifyPassword(request.Password, user.PasswordHash)`.
  The hasher's parameters are `(hashedPassword, providedPassword)`, so the
  given password goes where the stored hash is expected. `Login`'s
  contract passes the arguments in that same order.
- `EditVocabularyAsync` overwrites the expression and the translation
  together, even with a null or empty request value.
- Vocabulary edit and delete take no owner and work on anyone's entry.

## Model

| member | source | states |
|---|---|---|
| Phi3.OpeningPrompt | ai-services/phi3-service/app/services/phi3_service.py:77-85 | a new conversation opens with the given system prompt when it is non-empty, else with the default tutor prompt |
| Phi3.SliceFrom | ai-services/phi3-service/app/services/phi3_service.py:129 | Python's `h[start:]` is a suffix of `h`; its length for non-negative and for negative starts, with the clamping at both ends |
| Phi3.Truncate | ai-services/phi3-service/app/services/phi3_service.py:127-130 | the system message stays first; the rest is a suffix of the history; a history of at most `2·max_history` messages is kept whole; with `max_history ≥ 1` a longer one is cut to exactly `2·max_history`; `max_history = 0` never cuts |
| Phi3.Sent | ai-services/phi3-service/app/services/phi3_service.py:120-130 | the history sent to Ollama keeps the system message first, then the most recent messages of the history with the user message appended; within the limit (or with `max_history = 0`) it is that whole grown history; past it, with `max_history ≥ 1`, exactly `2·max_history` messages |
| Phi3.AfterTurn | ai-services/phi3-service/app/services/phi3_service.py:120-161 | the stored history after a turn is the history sent, followed by the stripped reply when Ollama answered and by nothing when it failed |
| Phi3.Resumes | ai-services/phi3-service/app/services/phi3_service.py:116-117 | a turn goes on with a stored conversation exactly when the id is given, non-empty and stored; otherwise it opens a new one |
| Phi3.TurnKeepsWellFormed | ai-services/phi3-service/app/services/phi3_service.py:121-161 | a chat turn, whatever Ollama answers, keeps a history well formed: the system message first and only there, and at most `2·max_history + 1` messages when the limit is positive |
| Phi3.TurnEndsWithExchange | ai-services/phi3-service/app/services/phi3_service.py:121-161 | with a non-negative limit the user message is the last one sent to Ollama, and after a reply the history ends with that user message and the stripped assistant reply |
| Phi3.NegativeLimitDropsMessages | ai-services/phi3-service/app/services/phi3_service.py:127-130 | with a negative `max_history` = m every turn drops the −2m oldest messages after the system message; once the history has no more than −2m messages, the message just sent is dropped too and only the system message is sent |
| Phi3.FreshIdExists | ai-services/phi3-service/app/services/phi3_service.py:74 | there is always a non-empty id not yet in use |
| Phi3.CorrectionPrompt | ai-services/phi3-service/app/services/phi3_service.py:188-202 | the prompt names the target language and quotes the text verbatim at their places, and ends with the reply format that names the three markers |
| Phi3.CorrectionMessages | ai-services/phi3-service/app/services/phi3_service.py:204-210 | the correction is asked with exactly two messages, the correction system prompt and the prompt; a negative `max_history` cuts the prompt away and only the system message is sent |
| Phi3.Phi3Service.constructor | ai-services/phi3-service/app/services/phi3_service.py:14-31 | the service starts with no conversations and the given history limit, 10 when none is given |
| Phi3.Phi3Service.CreateConversation | ai-services/phi3-service/app/services/phi3_service.py:64-89 | the id is new and non-empty; its history is the one system message; every other conversation is unchanged |
| Phi3.Phi3Service.GetConversation | ai-services/phi3-service/app/services/phi3_service.py:91-93 | an unknown id gives the empty history; a known one gives exactly its stored history, which opens with the system message |
| Phi3.Phi3Service.Chat | ai-services/phi3-service/app/services/phi3_service.py:95-168 | a missing, empty or unknown id opens a new conversation with the given prompt, a known id keeps its own; the stored history becomes the cut history plus the stripped reply, which is returned with the id; on failure the error is raised and the user message stays stored; no other conversation changes |
| Phi3.Phi3Service.OpenOrResume | ai-services/phi3-service/app/services/phi3_service.py:116-118 | the conversation a turn works on: the named one, or a fresh one; the map changes only by that new entry |
| Phi3.Phi3Service.AddUserMessage | ai-services/phi3-service/app/services/phi3_service.py:120-130 | the history becomes the history with the user message appended and then cut |
| Phi3.Phi3Service.CorrectText | ai-services/phi3-service/app/services/phi3_service.py:170-251 | the conversations are exactly as before, on success and on failure; on success the result is the parse of the stripped reply to the correction prompt sent under the correction system prompt |
| Phi3.Phi3Service.AskForCorrection | ai-services/phi3-service/app/services/phi3_service.py:204-251 | the temporary conversation is created, used and removed, and the result is the parse of the reply or the failure |
| Phi3.Phi3Service.ClearConversation | ai-services/phi3-service/app/services/phi3_service.py:253-257 | the id is removed and nothing else changes; an unknown id changes nothing, so clearing twice is clearing once |
| Phi3.CorrectTextReadsFormattedReply | ai-services/phi3-service/app/services/phi3_service.py:197-234 | a reply in the format the prompt asks for (single-line fields without markers, non-empty explanation) is read back as exactly its corrected text, corrections and explanation |
| CorrectionParser.Section | ai-services/phi3-service/app/services/phi3_service.py:218-220 | `response.split(marker)[1]` contains no further marker |
| CorrectionParser.IsBullet | ai-services/phi3-service/app/services/phi3_service.py:228 | a line of the corrections section gives an entry exactly when, stripped, it starts with a dash |
| CorrectionParser.BulletIgnoresPadding | ai-services/phi3-service/app/services/phi3_service.py:228-229 | whitespace around a line changes neither whether it is a dash line nor the entry it gives |
| CorrectionParser.BulletText | ai-services/phi3-service/app/services/phi3_service.py:229 | a correction entry has no surrounding whitespace |
| CorrectionParser.BulletEntries | ai-services/phi3-service/app/services/phi3_service.py:227-229 | at most one entry per line, each without surrounding whitespace |
| CorrectionParser.BulletEntriesAreDashLines | ai-services/phi3-service/app/services/phi3_service.py:227-229 | the entries are, in line order, exactly the texts after the dash of the lines whose stripped form starts with `-`, and every such line gives one |
| CorrectionParser.CollectCorrections | ai-services/phi3-service/app/services/phi3_service.py:227-229 | the loop over the lines collects exactly the entries of every dash line |
| CorrectionParser.CorrectionLines | ai-services/phi3-service/app/services/phi3_service.py:223-227 | no lines without `CORRECTIONS:`; otherwise at least one line, none holding a newline, and the lines joined by newlines are the stripped text between `CORRECTIONS:` and the first `EXPLANATION:` after it |
| CorrectionParser.ParseReply | ai-services/phi3-service/app/services/phi3_service.py:213-243 | the original text is kept; a missing `CORRECTED:` leaves the text as the correction and a missing `CORRECTIONS:` gives no entries; the explanation is `None` exactly when none was asked for, and `""` when its marker is missing; every field read is stripped |
| CorrectionParser.ReadCorrection | ai-services/phi3-service/app/services/phi3_service.py:213-234 | the step-by-step parse, with fallbacks overwritten when a marker occurs, gives `ParseReply` |
| CorrectionParser.ParseFormatted | ai-services/phi3-service/app/services/phi3_service.py:197-234 | parsing a reply laid out as the prompt asks returns its fields unchanged |
| CorrectionParser.EntriesOfBulletLines | ai-services/phi3-service/app/services/phi3_service.py:199-202 | the dash lines `- m` of a corrections block give back the entries `m` |
| Text.Strip | ai-services/phi3-service/app/services/phi3_service.py:155 | `strip()` returns a string with no surrounding whitespace, no longer than its input, empty exactly when the input is all whitespace |
| Text.StripIsInfix | ai-services/phi3-service/app/services/phi3_service.py:155 | what `strip()` keeps is a piece of the input with only whitespace on either side |
| Text.StripPadded | ai-services/phi3-service/app/services/phi3_service.py:155 | whitespace added around a string does not change its strip |
| Text.StripIdempotent | ai-services/phi3-service/app/services/phi3_service.py:155 | stripping twice is stripping once |
| Text.IndexOf | ai-services/phi3-service/app/services/phi3_service.py:217 | the first occurrence of a substring, and none exactly when it does not occur (the `in` test) |
| Text.Before | ai-services/phi3-service/app/services/phi3_service.py:220 | `split(p)[0]`: the prefix of the string up to the first occurrence of `p`, which does not contain `p`; the whole string when `p` does not occur |
| Text.After | ai-services/phi3-service/app/services/phi3_service.py:218-219 | what follows the first occurrence of `p`: the string is the text before `p`, then `p`, then this |
| Text.Split | ai-services/phi3-service/app/services/phi3_service.py:218-220 | `split(sep)` has more than one piece exactly when `sep` occurs; the first piece is the text before the first `sep`, the second the text between the first and second |
| Text.JoinSplit | ai-services/phi3-service/app/services/phi3_service.py:227 | joining the pieces of `split(sep)` with `sep` gives the string back |
| Text.SplitPiecesFree | ai-services/phi3-service/app/services/phi3_service.py:227 | no piece of `split(sep)` contains `sep` |
| Text.SplitJoin | ai-services/phi3-service/app/services/phi3_service.py:227 | splitting lines joined by a character they do not contain gives the lines back |
| Phi3Schemas.RoleValue | ai-services/phi3-service/app/models/schemas.py:6-10 | each role's string reads back as that role |
| Phi3Schemas.ParseRole | ai-services/phi3-service/app/models/schemas.py:6-10 | exactly `system`, `user` and `assistant` are roles |
| Phi3Schemas.MessageNotEmpty | ai-services/phi3-service/app/models/schemas.py:28-32 | an empty or blank message is refused with "Message cannot be empty"; any other is returned stripped, non-empty |
| Phi3Schemas.MessageNotEmptyIdempotent | ai-services/phi3-service/app/models/schemas.py:32 | validating an accepted message again returns it unchanged |
| Phi3Schemas.MessageError | ai-services/phi3-service/app/models/schemas.py:22-32 | the `message` field reports too long exactly above 2000 characters, and empty exactly when within the cap and blank |
| Phi3Schemas.MaxTokensError | ai-services/phi3-service/app/models/schemas.py:26 | `max_tokens` is refused exactly when given and outside 1..2048, with the side it falls on |
| Phi3Schemas.ValidateChatRequest | ai-services/phi3-service/app/models/schemas.py:19-32 | a chat request is accepted exactly when the message is at most 2000 characters and not blank and `max_tokens` is absent or in 1..2048; the accepted message is stripped; a refusal names each failing field |
| Phi3Schemas.ValidateCorrectionRequest | ai-services/phi3-service/app/models/schemas.py:52-57 | a correction request is accepted exactly when the text is at most 1000 characters; the language defaults to "en" and the explanation flag to true |
| PiperSchemas.TextNotEmpty | ai-services/piper-service/app/models/schemas.py:12-16 | empty and blank text is refused with "Text cannot be empty"; other text is returned stripped and non-empty |
| PiperSchemas.TextNotEmptyIdempotent | ai-services/piper-service/app/models/schemas.py:16 | validating accepted text again returns it unchanged |
| PiperSchemas.ValidateTTSRequest | ai-services/piper-service/app/models/schemas.py:5-16 | accepted exactly when the text is at most 5000 characters and not blank; the text is stripped, `language` and `voice` kept (absent as `None`) |
| WhisperSchemas.ValidateTask | ai-services/whisper-service/app/models/schemas.py:21-25 | exactly "transcribe" and "translate" pass, returned unchanged; anything else is refused with the source's message |
| WhisperSchemas.ValidateTranscriptionRequest | ai-services/whisper-service/app/models/schemas.py:14-25 | a given task must pass the check; absent fields default to "transcribe", false and `None` |
| Entities.FirstWhere | backend/EchoAPI/Infrastructure/Repositories/UserRepository.cs:16 | `FirstOrDefault`: the first row satisfying the predicate, and none exactly when no row does |
| Entities.Where | backend/EchoAPI/Infrastructure/Repositories/VocabularyRepository.cs:17-18 | `Where`: every row returned satisfies the predicate and is a row of the table |
| Entities.WhereComplete | backend/EchoAPI/Infrastructure/Repositories/VocabularyRepository.cs:17-18 | every row satisfying the predicate is returned |
| Entities.WhereConcat | backend/EchoAPI/Infrastructure/Repositories/VocabularyRepository.cs:17-18 | filtering keeps store order: the filter of a concatenation is the concatenation of the filters |
| Entities.FreshGuidExists | backend/EchoAPI/Application/Services/UserService.cs:38 | a key not yet in use always exists |
| UserRepository.GetByEmail | backend/EchoAPI/Infrastructure/Repositories/UserRepository.cs:14-17 | a found account has that email and is not deleted, and no earlier row qualifies; none is found exactly when no live account has that email |
| UserRepository.FindUser | backend/EchoAPI/Application/Services/UserService.cs:73 | the row found has that key; none is found exactly when no row has it |
| VocabularyRepository.GetByUserId | backend/EchoAPI/Infrastructure/Repositories/VocabularyRepository.cs:15-19 | every entry listed belongs to that user, is not deleted and is in the table |
| VocabularyRepository.GetByUserIdComplete | backend/EchoAPI/Infrastructure/Repositories/VocabularyRepository.cs:17-18 | every live entry of the user is listed |
| VocabularyRepository.GetByUserIdInOrder | backend/EchoAPI/Infrastructure/Repositories/VocabularyRepository.cs:17-18 | the listing keeps store order |
| VocabularyRepository.FindVocabulary | backend/EchoAPI/Application/Services/VocabularyService.cs:39 | the row found has that key; none is found exactly when no row has it |
| Accounts.MappedUser | backend/EchoAPI/Api/Mappings/UserProfile.cs:13-16 | a registration request becomes an account with the request's email and profile; the key, the hash and the creation time are left at their defaults for the service to set |
| Accounts.ViewOf | backend/EchoAPI/Api/Mappings/UserProfile.cs:18 | what callers see of an account: key, email, creation time, both languages and the sharing flag |
| Accounts.ViewHidesCredentials | backend/EchoAPI/Api/DTOs/Response/UserResponse.cs:3-12 | what callers see of an account does not depend on its password hash, last login or deletion flag |
| Accounts.ApplyEdit | backend/EchoAPI/Application/Services/UserService.cs:92-107 | a non-empty native language, target language or learning goals, or a given sharing flag, replaces the stored value; a null or empty one keeps it; no other field changes |
| Accounts.ApplyEditIdempotent | backend/EchoAPI/Application/Services/UserService.cs:92-107 | repeating an edit changes nothing more, and an edit of only null or empty values changes nothing |
| Accounts.RewriteActive | backend/EchoAPI/Application/Services/UserService.cs:57-58 | rewriting a live row with the same key and email keeps keys unique, live emails unique and the table's history |
| Accounts.AppendFresh | backend/EchoAPI/Application/Services/UserService.cs:38-43 | adding an account under an unused key with an email no live account has keeps both invariants |
| Accounts.ActiveUser | backend/EchoAPI/Application/Services/UserService.cs:73-78 | the account found is live and has that key; with unique keys, none is found exactly when every row with that key is deleted |
| Accounts.UserService.constructor | backend/EchoAPI/Application/Services/UserService.cs:18-24 | the service works on the given table with the given hasher, verifier and token issuer |
| Accounts.UserService.Register | backend/EchoAPI/Application/Services/UserService.cs:26-47 | an email a live account has is refused with "Email is already in use." and nothing changes; otherwise exactly one account is appended, with the request's profile, a fresh key, the hash of the password and the clock as creation time, and its view is returned |
| Accounts.UserService.Login | backend/EchoAPI/Application/Services/UserService.cs:49-69 | an unknown email and a failed verification (arguments in the source's order) give the same "Invalid email or password." refusal and change nothing; otherwise only the last login is set, and the token of the updated account is returned |
| Accounts.UserService.GetById | backend/EchoAPI/Application/Services/UserService.cs:71-82 | a missing or deleted account is refused with "User not found."; otherwise its view is returned; nothing changes |
| Accounts.UserService.EditUser | backend/EchoAPI/Application/Services/UserService.cs:84-113 | a missing or deleted account is refused and nothing changes; otherwise only that row changes, by the profile edit, and its view is returned |
| Accounts.UserService.DeleteUser | backend/EchoAPI/Application/Services/UserService.cs:115-127 | a missing or deleted account is refused with "User not found" and nothing changes; otherwise only its deletion flag is set; afterwards the key finds no live account, so a second delete is refused |
| Vocabularies.MappedEntry | backend/EchoAPI/Api/Mappings/VocabularyProfile.cs:15 | an add request becomes an entry with the request's expression, translation, example, origin and level; the key, the owner and the creation time at their defaults |
| Vocabularies.ViewOf | backend/EchoAPI/Api/Mappings/VocabularyProfile.cs:12-14 | what callers see of an entry: key, expression, translation, example, origin, level and creation time |
| Vocabularies.ViewsOf | backend/EchoAPI/Application/Services/VocabularyService.cs:34 | the mapped list has one view per entry, in order |
| Vocabularies.Overwrites | backend/EchoAPI/Application/Services/VocabularyService.cs:42 | an edit writes the entry exactly when the expression or the translation is non-empty, or an example sentence is given |
| Vocabularies.ApplyEdit | backend/EchoAPI/Application/Services/VocabularyService.cs:42-46 | an edit changes only the expression and the translation; when any of the three request fields is set, both become the request's values, even a null or empty one, else the entry is unchanged |
| Vocabularies.ApplyEditIdempotent | backend/EchoAPI/Application/Services/VocabularyService.cs:42-46 | repeating an edit changes nothing more |
| Vocabularies.ActiveEntry | backend/EchoAPI/Application/Services/VocabularyService.cs:39-40 | the entry found is live and has that key; with unique keys, none is found exactly when every row with that key is deleted |
| Vocabularies.RewriteActive | backend/EchoAPI/Application/Services/VocabularyService.cs:44-48 | rewriting a live entry with the same key and owner keeps keys unique and the table's history |
| Vocabularies.DeletedNotListed | backend/EchoAPI/Infrastructure/Repositories/VocabularyRepository.cs:17-18 | a deleted entry is in no user's list |
| Vocabularies.VocabularyService.constructor | backend/EchoAPI/Application/Services/VocabularyService.cs:14-18 | the service works on the given table |
| Vocabularies.VocabularyService.AddVocabulary | backend/EchoAPI/Application/Services/VocabularyService.cs:20-29 | exactly one entry is appended, owned by the caller, with the request's fields, a fresh key and the creation time left unset; its view is returned |
| Vocabularies.VocabularyService.GetUserVocabularies | backend/EchoAPI/Application/Services/VocabularyService.cs:31-35 | the result is the views of the user's live entries in store order, each the view of a live row of that user; nothing changes |
| Vocabularies.VocabularyService.EditVocabulary | backend/EchoAPI/Application/Services/VocabularyService.cs:37-52 | a missing or deleted entry is refused with "Vocabulary not found or unauthorized" and nothing changes; otherwise only that row changes, by the edit, whoever owns it |
| Vocabularies.VocabularyService.DeleteVocabulary | backend/EchoAPI/Application/Services/VocabularyService.cs:54-65 | a missing or deleted entry is refused and nothing changes; otherwise only its deletion flag is set and true is returned; afterwards no list contains it and a second delete is refused |

## Left out

- The HTTP call to Ollama is the function parameter `ollama`. The model name, the base URL, the `temperature`, `max_tokens` and `top_p` options, and the 120-second timeout are not modelled. `is_model_loaded` is left out: it asks Ollama over HTTP whether it is reachable.
- Phi3.Phi3Service.constructor: in the source, `__init__` calls `_check_ollama`, which asks Ollama for its model list. On any exception while requesting or reading the model list (a connection failure, a body that is not JSON, a model entry without `name`) it raises `ConnectionError("Cannot connect to Ollama at <url>")`, so construction fails when Ollama is unreachable. The model assumes Ollama is reachable and always constructs the service. Also left out: the warnings logged for an error status or a missing model; these do not stop construction.
- `get_model_info` is left out. It reports the model name, the URL, `max_history` and the number of stored conversations (the size of `conversations.Keys` here), and a status taken from the HTTP probe `is_model_loaded`.
- Phi3.Phi3Service.Chat: does not take `temperature` and `max_tokens`, because they only reach the HTTP payload. Every exception of the call is the one failure `OllamaError`: a connection error, an error status, or a body without `message.content`.
- Phi3.Phi3Service.CreateConversation: `uuid.uuid4()` is modelled as any non-empty id not in use, not as a random UUID string.
- CorrectionParser.ParseReply: each correction is a plain string, where the source builds the dict `{"correction": text}` around it.
- Logging is left out everywhere.
- Phi3Schemas.ValidateChatRequest: the float `temperature` bound (0.0 to 2.0) is not checked, because floating point is not modelled.
- Accounts.UserService.Login: the two clock readings are taken as the one instant `now`. One sets `LastLogin`; the other is inside the token service, counting the expiry from it.
- Hashing, verification and token issuing are uninterpreted functions with no cryptographic properties. `PasswordHasher` and `JwtTokenService` are not part of this model.
- The repository base class is not part of this model. Its `GetByIdAsync` is modelled as a key lookup that also sees deleted rows; the services reject those rows themselves. `AddAsync`, `Update` and `SaveChangesAsync` are the sequence updates of the methods. Async execution and concurrent requests (such as two registrations racing) are not modelled.
- Database behaviour is left out:
  - the unique index on `Users.Email`, which also covers deleted rows;
  - column length limits;
  - the failure when a null expression or translation is saved into a NOT NULL column;
  - case-insensitive collation of the email comparison (emails compare exactly here);
  - the cascade rules.
- Vocabularies.VocabularyService.GetUserVocabularies: `AddedFrom` and `KnowledgeLevel` are kept as numbers, where the response turns them into enumeration names.
- `EditVocabularyRequest` is not part of this model. Its three fields are taken as nullable strings, the way the service uses them.
- The controllers, FastAPI routes, application start-up and configuration are left out. So is the Whisper route's form field `task`, which bypasses `validate_task`.

# Municipal infraction API — a Dafny model of its controllers

The API records municipal infractions. An infraction happens in a commune
(`commune`), is committed by an offender (`violant`), is recorded by an agent
(`agent`) and falls in a severity category (`categorie`). A decision
(`decision`) can then be taken on the infraction. Application users (`users`)
sit beside this graph.

Seven Laravel resource controllers expose `store`, `show`, `update` and
`destroy` on these tables. This project models each of those actions as a pure
function. It takes an in-memory store of seven tables and the request fields,
and gives back the reply together with the store after the action.

- Every table is a map from primary key to row, plus its auto-increment counter (`Tables`).
- The store, the reply kinds and the referential-integrity invariant live in `Schema`. The invariant says that every `*_id` of an infraction and the `infraction_id` of every decision names an existing row.
- Laravel's validation rules are predicates over the request fields (`Rules`), built on PHP `trim`, `strtoupper` and the CIN pattern (`Text`).
- The invariant is proved for each single-table write (`Integrity`).
- The delete guard shared by the commune, violant, agent and categorie controllers is in `Guard`.
- Each controller is its own module, and `Api` dispatches a sequence of requests over all of them.

Proved properties:
- Each validation error reply names exactly the fields whose rule fails, and leaves the store unchanged.
- Rows are stored as each controller writes them: trimmed or not, the CIN normalised, and only allow-listed fields changed on update. An empty update changes nothing, and two updates in turn act as one merged update.
- A missing row is reported before validation, and before a delete conflict.
- A delete is refused, with the smallest referencing id, while a row still refers to the target.
- Every validated create, the validated infraction update, every unvalidated update that cannot touch a reference, and every delete keep the store valid. So does a decision update whose `infraction_id`, if sent, exists. A whole run of such requests keeps the store valid too.
- As the controller is written, a decision update naming a missing infraction breaks the invariant. The database's foreign key on `decision.infraction_id` would refuse that write. The database is not modelled.
- The commune update can store out-of-range coordinates, and the agent update can duplicate a phone number.
- Login uniqueness is kept by both user writes. CIN uniqueness for offenders holds only under a stated condition, shown by counterexamples.

The model follows the controller code. The feature tests for agents expect 404
statuses and CIN format checks that `AgentController` does not perform. The
user tests expect e-mail and password fields that the users table no longer
has. The model does neither.

## Model

| member | source | states |
|---|---|---|
| Text.Trim | app/Http/Controllers/InfractionController.php:157-159 | PHP `trim` never returns a string longer than its input, and neither end of the result is a space, tab, line feed, carriage return, NUL or vertical tab |
| Text.TrimLeft | app/Http/Controllers/InfractionController.php:157 | the result is a suffix of the input, everything dropped is a trim character, and the result does not start with one |
| Text.TrimRight | app/Http/Controllers/InfractionController.php:159 | the result is a prefix of the input, everything dropped is a trim character, and the result does not end with one |
| Text.TrimIsFactor | app/Http/Controllers/CommuneController.php:135-137 | the trimmed string is the contiguous piece of the input starting at the first non-trim character |
| Text.TrimCutsOnlyTrimChars | app/Http/Controllers/CommuneController.php:135-137 | everything trim removes, before and after the kept piece, is a trim character |
| Text.BlankIffAllTrimChars | app/Http/Controllers/UserController.php:117-121 | a value fails `required` exactly when all its characters are trim characters |
| Text.TrimOfTrimmed | app/Http/Controllers/CategorieController.php:120 | trimming a string whose ends are not trim characters gives it back unchanged |
| Text.TrimIdempotent | app/Http/Controllers/CategorieController.php:253 | trimming twice is trimming once |
| Text.UpperChangesOnlyLower | app/Http/Controllers/ViolantController.php:66 | `strtoupper` keeps the length, changes a character exactly when it is an ASCII lower-case letter, turns it into an upper-case one, and leaves no lower-case letter |
| Text.UpperFixedIff | app/Http/Controllers/ViolantController.php:66 | `strtoupper` leaves a string unchanged exactly when the string has no ASCII lower-case letter |
| Text.UpperIdempotent | app/Http/Controllers/ViolantController.php:66 | upper-casing twice is upper-casing once |
| Text.NormaliseCinIdentity | app/Http/Controllers/ViolantController.php:51-66 | on a CIN the pattern `^[A-Z0-9]+$` accepts without a final line feed, `strtoupper(trim(cin))` is the identity |
| Text.NormaliseCinOfMatch | app/Http/Controllers/ViolantController.php:51-66 | whatever the pattern accepts normalises to a `[A-Z0-9]+` word: the input itself, or the input without its final line feed |
| Text.NormaliseDropsFinalNewline | app/Http/Controllers/ViolantController.php:51-66 | a `[A-Z0-9]+` word plus one line feed passes the pattern and `required`, and normalises to the bare word |
| Tables.Table.Insert | app/Http/Controllers/InfractionController.php:156-166 | a create adds the row under the counter's key, which no row holds, and advances the counter |
| Tables.Table.Put | app/Http/Controllers/InfractionController.php:366 | an update replaces one existing row and keeps every key, every other row and the counter |
| Tables.Table.Remove | app/Http/Controllers/InfractionController.php:428 | a delete drops exactly one key, keeps every other row and never rewinds the counter |
| Tables.RemoveInserted | app/Http/Controllers/InfractionController.php:156-166 | deleting the row just created restores the rows, with the counter one step on |
| Tables.EmptyTable | database/migrations/2023_04_11_234838_create_infraction_table.php:16-17 | a new table is empty, and its counter starts at 1 |
| Tables.First | app/Http/Controllers/InfractionController.php:414 | `firstWhere` finds nothing exactly when no row matches, and otherwise the smallest matching key |
| Schema.FailingEmptyIff | app/Http/Controllers/InfractionController.php:152-154 | the validation error set is empty exactly when every validated field passes its rule |
| Schema.EmptyDb | database/migrations/2023_04_11_234838_create_infraction_table.php:16-28 | a store of seven empty tables is valid |
| Integrity.InsertInfraction | app/Http/Controllers/InfractionController.php:134-137 | adding an infraction whose four references exist keeps the store valid |
| Integrity.PutInfraction | app/Http/Controllers/InfractionController.php:317-320 | rewriting an infraction so that its four references exist keeps the store valid |
| Integrity.RemoveInfraction | app/Http/Controllers/InfractionController.php:414-428 | removing an infraction no decision names keeps the store valid |
| Integrity.InsertDecision | app/Http/Controllers/DecisionController.php:112-126 | adding a decision whose infraction exists keeps the store valid |
| Integrity.PutDecision | app/Http/Controllers/DecisionController.php:177 | rewriting a decision so that its infraction exists keeps the store valid |
| Integrity.RemoveDecision | app/Http/Controllers/DecisionController.php:199 | removing a decision always keeps the store valid |
| Integrity.RemoveTarget | app/Http/Controllers/CommuneController.php:313-327 | removing a commune, offender, agent or category no infraction names keeps the store valid |
| Integrity.TargetsGrow | app/Http/Controllers/CommuneController.php:265 | a write that leaves infractions and decisions alone and removes no referenced row keeps every reference intact |
| Integrity.NothingReferencesMissing | app/Http/Controllers/CommuneController.php:313-318 | in a store with referential integrity no infraction refers to a missing commune, offender, agent or category, so reporting the missing row first never hides a conflict |
| Integrity.NoDecisionOnMissing | app/Http/Controllers/InfractionController.php:414-419 | in a store with referential integrity no decision names a missing infraction |
| Guard.DestroyTarget | app/Http/Controllers/CommuneController.php:313-329 | not found exactly when the row is missing; otherwise a conflict exactly when an infraction refers to it, naming the smallest such infraction and changing nothing; otherwise exactly that row goes; validity is kept |
| InfractionController.AcceptedIsComplete | app/Http/Controllers/InfractionController.php:131-139 | a request passing every create rule carries all nine fields, and its four references exist |
| InfractionController.InsertRow | app/Http/Controllers/InfractionController.php:156-166 | the new infraction gets the next key, only the infraction table changes, and validity is kept when its references exist |
| InfractionController.Store | app/Http/Controllers/InfractionController.php:126-172 | the error reply names exactly the failing fields among `nom` 2..100, `date` not after today, `adresse` 5..255, the four existing ids and the inclusive coordinate ranges, and changes nothing; otherwise the row with `nom` and `adresse` trimmed and the rest copied is added under a fresh key and can be shown; validity is kept |
| InfractionController.StoreRejectsMissingCommune | app/Http/Controllers/InfractionController.php:134 | a `commune_id` that does not exist gives an error on `commune_id` and leaves the store unchanged |
| InfractionController.Show | app/Http/Controllers/InfractionController.php:215-224 | the infraction under the id, or not found exactly when it is missing |
| InfractionController.AcceptedUpdateKeepsRefs | app/Http/Controllers/InfractionController.php:317-320 | an accepted update only moves a foreign key onto an existing row |
| InfractionController.ApplyNothing | app/Http/Controllers/InfractionController.php:338-366 | an update that sends none of the nine allow-listed fields leaves the row as it was |
| InfractionController.ApplyMerge | app/Http/Controllers/InfractionController.php:338-366 | two updates in turn write what one update would, in which each field the later request sends overrides the earlier one |
| InfractionController.PutRow | app/Http/Controllers/InfractionController.php:366 | the row under the id is replaced, nothing else changes, and validity is kept when the new references exist |
| InfractionController.Update | app/Http/Controllers/InfractionController.php:303-372 | a missing id gives not found, before validation, with nothing changed; the error reply names exactly the sent fields that fail; otherwise only that row changes, by the sent allow-listed fields, under the same id; validity is kept |
| InfractionController.Destroy | app/Http/Controllers/InfractionController.php:412-431 | not found exactly when the infraction is missing, although the decision lookup runs first; a conflict exactly when a decision names it, carrying the smallest such decision id and changing nothing; otherwise exactly that row goes and validity is kept |
| InfractionController.StoreThenDestroy | app/Http/Controllers/InfractionController.php:156-166 | on a valid store, deleting an infraction right after creating it succeeds and restores the store, the counter aside |
| CommuneController.AcceptedIsComplete | app/Http/Controllers/CommuneController.php:116-121 | a request passing every create rule carries all five fields, with coordinates in range |
| CommuneController.InsertRow | app/Http/Controllers/CommuneController.php:134-140 | the new commune gets the next key, only the commune table changes, validity is kept, and so are in-range coordinates |
| CommuneController.Store | app/Http/Controllers/CommuneController.php:114-146 | the error reply names exactly the failing fields among `pachalik-circon` and `caidat` 2..200, `nom` 2..50 and the inclusive coordinate ranges, and changes nothing; otherwise the three names are stored trimmed under a fresh key; validity and in-range coordinates are kept |
| CommuneController.Show | app/Http/Controllers/CommuneController.php:185-194 | the commune under the id, or not found exactly when it is missing |
| CommuneController.Update | app/Http/Controllers/CommuneController.php:257-271 | a missing id gives not found with nothing changed; otherwise the sent fillable fields are written unchecked and the commune can be shown; validity is kept |
| CommuneController.ApplyNothing | app/Http/Controllers/CommuneController.php:265 | an update that sends none of the five fillable fields leaves the row as it was |
| CommuneController.ApplyMerge | app/Http/Controllers/CommuneController.php:265 | two updates in turn write what one update would, in which each field the later request sends overrides the earlier one |
| CommuneController.UpdateStoresOffMapLatitude | app/Http/Controllers/CommuneController.php:265 | a latitude of 91, which a create refuses, is stored by an update |
| CommuneController.Destroy | app/Http/Controllers/CommuneController.php:311-330 | not found exactly when the commune is missing; a conflict exactly when an infraction has this `commune_id`, naming the smallest, with nothing changed; otherwise only that commune goes; validity is kept |
| CategorieController.InsertRow | app/Http/Controllers/CategorieController.php:119-122 | the new category gets the next key, only the category table changes, and validity is kept |
| CategorieController.Store | app/Http/Controllers/CategorieController.php:105-128 | the error reply names exactly the failing fields among `nom` 2..50 and `degre` in 1..5, and changes nothing; otherwise the trimmed name and the degree are stored under a fresh key; every stored degree stays in 1..5 |
| CategorieController.Show | app/Http/Controllers/CategorieController.php:164-173 | the category under the id, or not found exactly when it is missing |
| CategorieController.ApplyNothing | app/Http/Controllers/CategorieController.php:250-260 | an update that sends none of the two allow-listed fields leaves the row as it was |
| CategorieController.ApplyMerge | app/Http/Controllers/CategorieController.php:250-260 | two updates in turn write what one update would, in which each field the later request sends overrides the earlier one |
| CategorieController.PutRow | app/Http/Controllers/CategorieController.php:260 | the row under the id is replaced and validity is kept |
| CategorieController.Update | app/Http/Controllers/CategorieController.php:230-266 | a missing id gives not found, before validation; the error reply names exactly the sent fields that fail, a blank name passing; otherwise only `nom` and `degre` of that row change; every stored degree stays in 1..5 |
| CategorieController.StoreDegreBounds | tests/Feature/CategorieApiTest.php:77-102 | degrees 0 and 6 are refused with an error on `degre` alone, and 1 and 5 are accepted |
| CategorieController.UpdateRejectsDegre | app/Http/Controllers/CategorieController.php:240-248 | an out-of-range degree on update is refused with an error on `degre` alone and changes nothing |
| CategorieController.UpdateNomKeepsDegre | tests/Feature/CategorieApiTest.php:171-189 | an update sending only a name renames the category and keeps its degree |
| CategorieController.Destroy | app/Http/Controllers/CategorieController.php:306-325 | not found exactly when the category is missing; a conflict exactly when an infraction has this `categorie_id`, naming the smallest, with nothing changed; otherwise only that category goes; validity is kept |
| ViolantController.InsertRow | app/Http/Controllers/ViolantController.php:63-67 | the new offender gets the next key, only the offender table changes, and validity is kept |
| ViolantController.Store | app/Http/Controllers/ViolantController.php:46-73 | the error reply names exactly the failing fields among `nom` and `prenom` 2..50 and a `cin` that is required, at most 12 long, unused and matching the pattern, and changes nothing; otherwise the names are stored trimmed and the CIN normalised to a `[A-Z0-9]+` word of at most 12 characters |
| ViolantController.Show | app/Http/Controllers/ViolantController.php:81-90 | the offender under the id, or not found exactly when it is missing |
| ViolantController.ApplyNothing | app/Http/Controllers/ViolantController.php:133-139 | an update that sends none of the three allow-listed fields leaves the row as it was |
| ViolantController.ApplyMerge | app/Http/Controllers/ViolantController.php:133-139 | two updates in turn write what one update would, in which each field the later request sends overrides the earlier one |
| ViolantController.PutRow | app/Http/Controllers/ViolantController.php:139 | the row under the id is replaced and validity is kept |
| ViolantController.Update | app/Http/Controllers/ViolantController.php:110-145 | a missing id gives not found, before validation; the error reply names exactly the sent fields that fail, the CIN unique among the other offenders; otherwise only the three fields of that row change |
| ViolantController.StoreKeepsCinsDistinct | app/Http/Controllers/ViolantController.php:51-66 | a create keeps CINs distinct when the CIN sent does not end in a line feed |
| ViolantController.StoreDuplicatesCinWithFinalNewline | app/Http/Controllers/ViolantController.php:51-66 | for any offender whose CIN is a `[A-Z0-9]+` word `w` of at most 11 characters ("AB1", say), a create sending `w` plus a line feed is accepted and stored with the CIN `w`, so two offenders share it |
| ViolantController.NewlineCinAccepted | app/Http/Controllers/ViolantController.php:48-57 | `w` plus a line feed passes the `cin` rule when that raw value is unused, and together with names of 2 to 50 characters not starting or ending in a blank, it is stored as `w` |
| ViolantController.UpdateKeepsCinsDistinct | app/Http/Controllers/ViolantController.php:121-136 | an update keeps CINs distinct when the CIN sent is neither blank nor ends in a line feed |
| ViolantController.UpdateDuplicatesBlankCin | app/Http/Controllers/ViolantController.php:121-136 | a blank CIN skips every update rule, is stored as the empty string and can duplicate another offender's |
| ViolantController.UpdateOwnCinAccepted | app/Http/Controllers/ViolantController.php:121 | sending back one's own CIN is accepted and changes nothing |
| ViolantController.UpdateRejectsLowercaseCin | tests/Feature/ViolantApiTest.php:234-246 | a lowercase CIN on update is refused with an error on `cin` alone and changes nothing |
| ViolantController.Destroy | app/Http/Controllers/ViolantController.php:153-172 | not found exactly when the offender is missing; a conflict exactly when an infraction has this `violant_id`, naming the smallest, with nothing changed; otherwise only that offender goes; validity is kept |
| DecisionController.InsertRow | app/Http/Controllers/DecisionController.php:122-126 | the new decision gets the next key, only the decision table changes, and validity is kept when its infraction exists |
| DecisionController.Store | app/Http/Controllers/DecisionController.php:107-132 | the error reply names exactly the failing fields among a date not after today, `decisionprise` 5..200 and an existing `infraction_id`, and changes nothing; otherwise the text is stored trimmed under a fresh key; validity is kept |
| DecisionController.Show | app/Http/Controllers/DecisionController.php:140-149 | the decision under the id, or not found exactly when it is missing |
| DecisionController.Update | app/Http/Controllers/DecisionController.php:169-183 | a missing id gives not found; otherwise the sent fields are written unchecked; validity is kept only when `infraction_id` is not sent or names an existing infraction |
| DecisionController.ApplyNothing | app/Http/Controllers/DecisionController.php:177 | an update that sends none of the three fillable fields leaves the row as it was |
| DecisionController.ApplyMerge | app/Http/Controllers/DecisionController.php:177 | two updates in turn write what one update would, in which each field the later request sends overrides the earlier one |
| DecisionController.UpdateBreaksIntegrity | app/Http/Controllers/DecisionController.php:177 | the controller accepts an update pointing a decision at a missing infraction, which a create refuses, and the store it leaves breaks referential integrity; the database's foreign key would refuse this write |
| DecisionController.UpdateAcceptsFutureDate | tests/Feature/DecisionApiTest.php:129-156 | a date after today is accepted on update but refused on create |
| DecisionController.Destroy | app/Http/Controllers/DecisionController.php:191-202 | not found exactly when the decision is missing; otherwise it goes, unguarded; validity is kept |
| AgentController.AcceptedIsComplete | app/Http/Controllers/AgentController.php:43-48 | a request passing every create rule carries all four fields, with `tel` at most 10 and `cin` at most 12 long, both unused |
| AgentController.InsertRow | app/Http/Controllers/AgentController.php:52-57 | the new agent gets the next key, only the agent table changes, and validity is kept |
| AgentController.Store | app/Http/Controllers/AgentController.php:41-58 | the error reply names exactly the failing fields among required `nom` and `prenom` of at most 50, `tel` of at most 10 and unused, and `cin` of at most 12 and unused, and changes nothing; otherwise the fields are stored as sent and the reply has no body |
| AgentController.StoreKeepsKeysDistinct | app/Http/Controllers/AgentController.php:46-47 | a create never gives a second agent a phone number or CIN already in use |
| AgentController.Show | app/Http/Controllers/AgentController.php:66-76 | the agent under the id, or the "Agent Introuvable" error object exactly when it is missing |
| AgentController.Update | app/Http/Controllers/AgentController.php:97-109 | a missing id gives the error object with nothing changed; otherwise the sent fields are written unchecked and the agent is returned; validity is kept |
| AgentController.ApplyNothing | app/Http/Controllers/AgentController.php:105 | an update that sends none of the four fields leaves the row as it was |
| AgentController.ApplyMerge | app/Http/Controllers/AgentController.php:105 | two updates in turn write what one update would, in which each field the later request sends overrides the earlier one |
| AgentController.UpdateDuplicatesTel | app/Http/Controllers/AgentController.php:105 | an update giving one agent another's phone number is accepted and leaves two agents sharing it |
| AgentController.Destroy | app/Http/Controllers/AgentController.php:117-137 | the "introuvable" message exactly when the agent is missing; the message naming the smallest infraction this agent recorded exactly when there is one, with nothing changed; otherwise the agent goes; validity is kept |
| UserController.AcceptedIsComplete | app/Http/Controllers/UserController.php:116-122 | a request passing every create rule carries all five fields |
| UserController.InsertRow | app/Http/Controllers/UserController.php:128-134 | the new user gets the next key, only the user table changes, and validity is kept |
| UserController.Store | app/Http/Controllers/UserController.php:114-140 | the error reply names exactly the failing fields among the required fields of at most 255/255/50/255/50 characters and an unused `login`, and changes nothing; otherwise the five fields are stored as sent |
| UserController.Show | app/Http/Controllers/UserController.php:179-188 | the user under the id, or not found exactly when it is missing |
| UserController.ApplyNothing | app/Http/Controllers/UserController.php:279-283 | an update that sends none of the five allow-listed fields leaves the row as it was |
| UserController.ApplyMerge | app/Http/Controllers/UserController.php:279-283 | two updates in turn write what one update would, in which each field the later request sends overrides the earlier one |
| UserController.PutRow | app/Http/Controllers/UserController.php:283 | the row under the id is replaced and validity is kept |
| UserController.Update | app/Http/Controllers/UserController.php:259-289 | a missing id gives not found, before validation; the error reply names exactly the sent fields that fail, the login unique among the other users; otherwise only that row's sent allow-listed fields change |
| UserController.StoreKeepsLoginsDistinct | app/Http/Controllers/UserController.php:121 | a create keeps logins distinct |
| UserController.UpdateKeepsLoginsDistinct | app/Http/Controllers/UserController.php:272 | an update keeps logins distinct |
| UserController.UpdateOwnLoginAccepted | app/Http/Controllers/UserController.php:272 | sending back one's own login is accepted and changes nothing |
| UserController.Destroy | app/Http/Controllers/UserController.php:321-332 | not found exactly when the user is missing; otherwise it goes, unguarded; validity is kept |
| Api.HandleInfraction | routes/api.php:36 | every infraction write keeps a valid store valid |
| Api.HandleCommune | routes/api.php:34 | every commune write keeps a valid store valid |
| Api.HandleCategorie | routes/api.php:33 | every category write keeps a valid store valid |
| Api.HandleViolant | routes/api.php:38 | every offender write keeps a valid store valid |
| Api.HandleDecision | routes/api.php:35 | every decision write except an update pointing `infraction_id` at a missing infraction keeps a valid store valid |
| Api.HandleAgent | routes/api.php:32 | every agent write keeps a valid store valid |
| Api.HandleUser | routes/api.php:37 | every user write keeps a valid store valid |
| Api.Handle | routes/api.php:32-38 | every request except a decision update pointing `infraction_id` at a missing infraction keeps a valid store valid |
| Api.RunPreservesValid | routes/api.php:32-38 | any sequence of requests, on any days, keeps a valid store valid as long as each request is guarded in the store the requests before it leave |
| Api.KeepsLinkIsGuarded | routes/api.php:35 | a sequence in which no decision update sends `infraction_id` is guarded in every store |
| Api.RunAppend | routes/api.php:32-38 | running two sequences one after the other is running their concatenation |
| Api.UnguardedUpdateBreaksValid | app/Http/Controllers/DecisionController.php:177 | the guard is needed: as the controller is written, a decision update naming a missing infraction leaves a valid store invalid; the database's foreign key, not modelled, would refuse it |

## Left out

- HTTP routing, status codes and JSON envelopes are reduced to reply constructors. The OpenAPI annotations, the `index` listing actions, the empty `create`/`edit` actions and the `/test` route are not modelled.
- Laravel's global request middleware (TrimStrings, ConvertEmptyStringsToNull) is not part of this model. The model assumes the middleware is absent: the rules see the raw request body. A null JSON value is treated like an absent field. With the framework's default middleware, values would arrive trimmed and blank strings as null, and the following would not hold as stated:
  - ViolantController.StoreDuplicatesCinWithFinalNewline: the line feed would be trimmed before the uniqueness rule.
  - ViolantController.UpdateDuplicatesBlankCin: the blank CIN would become null and fail `string`.
  - CategorieController.Update: a blank name would become null and fail `string`, where the model lets it pass.
  - The length rules of every `Store` and `Update` count the untrimmed value.
- The Validator's type rules (`string`, `integer`, `numeric`, `date`) hold by construction, because every request field already has its declared type. The `floatval`/`intval` conversions are the identity on these typed values. Coordinates are exact reals, and dates are day numbers compared with a `today` parameter.
- `unique` and `exists` compare values exactly. The database collation, which may ignore case or trailing spaces, is not modelled.
- Tables.First: `firstWhere` without an ORDER BY may return any matching row. The model returns the smallest key, so the conflict id it reports is one valid choice.
- ViolantController.StoreKeepsCinsDistinct: holds only for a CIN without a final line feed, because the pattern lets "AB1\n" through and the uniqueness rule checks the untrimmed value.
- ViolantController.UpdateKeepsCinsDistinct: holds only for a CIN that is neither blank nor ends in a line feed. A blank CIN skips every rule and is stored as the empty string.
- The database-level foreign keys (the infraction and decision migrations) are not modelled. Integrity is stated at the application level: it is what the controllers guarantee by themselves. For deletes this changes nothing, because the controllers' guards refuse a referenced delete before `cascadeOnDelete` could act. For the decision update it does matter: the foreign key on `decision.infraction_id` would make the database refuse the write that `DecisionController.UpdateBreaksIntegrity` and `Api.UnguardedUpdateBreaksValid` exhibit. Those two lemmas describe the controller code alone.
- Concurrency is not modelled: requests are handled one at a time, so check-then-delete races do not arise.
- UserController.Store: accepts up to 255/255/50/255/50 characters for `nom`/`prenom`/`Tel`/`role`/`login`, as the controller's rules say. The users migration declares the columns 50/50/20/20/50 wide, so a 60-character `nom` is created in the model where a strict-mode MySQL insert would fail. Column widths are not modelled.
- UserController.Update: same column-width difference as `UserController.Store`.
- Timestamps, `BaseApiController`, factories and seeders are not modelled.
- The fillable lists of the agent and category models are not part of this model. Their mass-assignable fields are taken to be the domain fields.

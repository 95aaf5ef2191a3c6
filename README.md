# massload core, modelled in Dafny

massload turns a music-rights CSV file into JSON records. It reads the
file's delimiter and header row. It then chooses a transformation matrix:
an explicit one, a cached template that fits the headers, or a matrix
produced by an AI generator, which is then cached. Each row runs through the
matrix's per-field operations (trim, case, pad, map, split, year extraction,
…), and rows may be expanded into several rows first. The flat records are
validated and grouped into one musical work per ISWC.

This project models that core and proves what each part promises:

- `text.dfy`: the string primitives the code relies on: `trim`, ASCII case
  mapping, substring search, `split`, line splitting, byte length,
  `to_string` of integers and sorted insertion.
- `json.dfy`: the JSON value and the `get` / `as_str` / `as_i64` /
  `as_bool` accessors.
- `operations.dfy`: the DSL operations of `transform/dsl/operations.rs`.
- `matrix.dfy`: field transforms, the matrix, its source columns and
  header validation.
- `executor.dfy`: row expansion, per-field transformation with overrides,
  the required-field rules and `execute`.
- `models.dfy`: party identifiers, creator roles and `GroupedWork`.
- `grouper.dfy`: grouping flat records into works (`flat_to_grouped`) with
  a `WorkBuilder` class per ISWC.
- `registry.dfy`: the matrix registry (a class holding the stored
  matrices): compatibility scores, ranking, ids, import, usage statistics.
- `parser.dfy`: delimiter detection and CSV parsing into records.
- `ai.dfy`: JSON extraction from a generator reply, and the retry loop.
- `pipeline.dfy`: validation, `try_matrix`, the matrix fallback chain and
  the whole run.

Imperative parts of the source are methods with loops or a class with
`modifies` clauses:

- `execute`, `validate_records`, `detect_delimiter` and the parsing loop;
- `find_compatible` and its insertion sort;
- the registry's mutating operations;
- the work builders and the fallback chain.

Each such method is proved against a specification function, and the
properties are lemmas about those functions.

Three behaviours of the code are easy to misread; the model follows the
code:

- `apply_transform` can return an empty value when a field's default is
  itself empty (`Executor.TransformValue`).
- `pad_start`/`pad_end` measure length in UTF-8 bytes, not characters.
- `detect_delimiter` prefers the first separator among those with the
  largest count, and falls back to `;`.

## Model

| member | source | states |
|---|---|---|
| Text.Trim | backend/src/transform/dsl/operations.rs:150-154 | the trimmed text is the input with whitespace only cut from both ends (a slice with only whitespace before and after it); it is empty exactly when the input is all whitespace, and neither starts nor ends with whitespace |
| Text.TrimMatchesSlice | backend/src/parser/mod.rs:178-184 | cutting a character from both ends leaves a slice with only that character before and after it |
| Text.TrimIdempotent | backend/src/transform/dsl/operations.rs:385-388 | trimming twice is trimming once |
| Text.TrimToLower | backend/src/models/mod.rs:97-113 | trimming and lower-casing commute, so a trimmed code reads the same whichever runs first |
| Text.ToUpperOfToLower | backend/src/models/mod.rs:97-113 | upper-casing a lower-cased code gives the upper-cased code |
| Text.IndexOf | backend/src/transform/dsl/operations.rs:268-278 | the first occurrence of a pattern, or None exactly when the pattern does not occur |
| Text.SplitOn | backend/src/transform/dsl/operations.rs:268-278 | splitting on a non-empty separator yields at least one piece |
| Text.SplitOnPiecesClean | backend/src/transform/dsl/operations.rs:268-278 | no piece of a split contains the separator |
| Text.JoinSplitOn | backend/src/transform/dsl/operations.rs:268-278 | joining the pieces of a split with the separator gives back the original text |
| Text.InsertAll | backend/src/transform/dsl/matrix.rs:181-184 | sorting and deduplicating gives a strictly sorted sequence with exactly the inserted elements |
| Text.DigitsValueOfNatToString | backend/src/transform/dsl/operations.rs:292-313 | reading back the decimal text of a number gives the number |
| Text.Utf8LenAppend | backend/src/transform/dsl/operations.rs:178-204 | the byte length of a concatenation is the sum of the byte lengths |
| Json.Get | backend/src/transform/grouper.rs:67-77 | a field is found exactly when the value is an object with that key, and it is that key's value |
| Json.AsStr | backend/src/transform/grouper.rs:67-77 | a string is read exactly when the value is a string |
| Json.AsI64 | backend/src/transform/grouper.rs:69-77 | an integer is read exactly when the value is a number within the signed 64-bit range |
| Json.AsBool | backend/src/transform/grouper.rs:70 | a boolean is read exactly when the value is a boolean |
| Json.StrField | backend/src/transform/grouper.rs:67-85 | a field's text is read exactly when the value is an object whose field under the key is a string, and it is that string |
| Operations.Operation.Apply | backend/src/transform/dsl/operations.rs:116-139 | arrays, objects and null pass through unchanged (only ExtractYear and ToNumber turn them into null, ToBoolean into false); on scalars the text operations give a string or an array |
| Operations.AsString | backend/src/transform/dsl/operations.rs:141-148 | strings, numbers and booleans have a text form, nothing else does: a string is itself, a number its decimal text, a boolean "true" or "false" |
| Operations.MapText | backend/src/transform/dsl/operations.rs:150-166 | a text operation applies to the text of a scalar and leaves every other value unchanged |
| Operations.ReplaceAll | backend/src/transform/dsl/operations.rs:168-176 | the text split at every occurrence of the pattern and joined with the replacement, for every pattern including the empty one; text without a non-empty pattern is unchanged |
| Operations.ReplaceBySelf | backend/src/transform/dsl/operations.rs:168-176 | replacing a pattern by itself changes nothing |
| Operations.PadCharOf | backend/src/transform/dsl/operations.rs:95-97 | the pad character is the first character given, or '0' |
| Operations.PadStartText | backend/src/transform/dsl/operations.rs:178-190 | text already long enough (in bytes) is unchanged; otherwise the text is kept at the end and preceded by pad characters only, reaching the length for an ASCII pad |
| Operations.PadEndText | backend/src/transform/dsl/operations.rs:192-204 | text already long enough is unchanged; otherwise the text is kept at the start and followed by pad characters only, reaching the length for an ASCII pad |
| Operations.PadStartWithZeros | backend/src/transform/dsl/operations.rs:178-190 | padding "42" to 5 with the default pad gives "00042" |
| Operations.FindYear | backend/src/transform/dsl/operations.rs:206-217 | the position of the first run of four ASCII digits, or None exactly when there is none |
| Operations.ApplyExtractYear | backend/src/transform/dsl/operations.rs:206-217 | the result is null or a number from 0 to 9999: the value of the first four-digit run in the text of a scalar; non-scalars give null |
| Operations.ExtractYearAt | backend/src/transform/dsl/operations.rs:206-217 | the year is the value of the four digits at the first four-digit run |
| Operations.ExtractYearOfDate | backend/src/transform/dsl/operations.rs:415-419 | "15/03/2024" gives the year 2024 |
| Operations.EnsurePrefixText | backend/src/transform/dsl/operations.rs:219-229 | the result starts with the prefix; text that already has it is unchanged, other text gets it prepended |
| Operations.EnsureSuffixText | backend/src/transform/dsl/operations.rs:231-241 | the result ends with the suffix; text that already has it is unchanged, other text gets it appended |
| Operations.EnsurePrefixIdempotent | backend/src/transform/dsl/operations.rs:219-229 | ensuring a prefix twice is ensuring it once, on every value |
| Operations.EnsureSuffixIdempotent | backend/src/transform/dsl/operations.rs:231-241 | ensuring a suffix twice is ensuring it once, on every value |
| Operations.EnsurePrefixOfCode | backend/src/transform/dsl/operations.rs:422-426 | "T" is prepended to "1234567890" and not added again to "T1234567890" |
| Operations.Lookup | backend/src/transform/dsl/operations.rs:243-266 | the first mapping entry whose key matches (lower-cased when case-insensitive), or None when no entry matches |
| Operations.MapLookupText | backend/src/transform/dsl/operations.rs:243-266 | the value of the first entry whose key matches (`Lookup`, lower-cased when case-insensitive); with no match the configured default, or "" when there is none |
| Operations.ApplySplit | backend/src/transform/dsl/operations.rs:268-278 | a scalar becomes an array of the trimmed pieces of its text, one per piece; other values are unchanged |
| Operations.SplitWithoutSeparator | backend/src/transform/dsl/operations.rs:268-278 | text without the separator becomes a one-element array of the trimmed text |
| Operations.ApplyToBoolean | backend/src/transform/dsl/operations.rs:280-290 | the result is always a boolean: booleans are kept, non-scalars give false, and other scalars give true exactly when their text equals one of the true values ignoring case |
| Operations.ApplyToNumber | backend/src/transform/dsl/operations.rs:292-313 | numbers are kept and non-scalars give null; other scalars give the integer read from all their ASCII digits, negated when the trimmed text starts with '-', and null when there is no digit or the value leaves the signed 64-bit range |
| Operations.ToNumberOfIntText | backend/src/transform/dsl/operations.rs:408-412 | the decimal text of any integer converts back to that integer |
| Operations.SubstringText | backend/src/transform/dsl/operations.rs:315-326 | a start past the end gives ""; otherwise the characters from start, at most length of them, clipped to the end |
| Operations.TrimIdempotentOnValues | backend/src/transform/dsl/operations.rs:150-154 | Trim applied twice equals Trim applied once, on every value |
| Operations.UppercaseAfterLowercase | backend/src/transform/dsl/operations.rs:156-166 | upper-casing after lower-casing is upper-casing |
| Operations.DigitsOnlyKeepsDigits | backend/src/transform/dsl/operations.rs:337-344 | the result is a string of ASCII digits only, and every digit of the input survives with its multiplicity |
| Operations.AlphanumericKeepsLettersAndDigits | backend/src/transform/dsl/operations.rs:328-335 | the result holds only alphanumeric characters, and every alphanumeric character of the input survives with its multiplicity |
| Matrix.FieldTransform.WithOperation | backend/src/transform/dsl/matrix.rs:255-258 | the operation is appended after the existing ones and nothing else changes |
| Matrix.FieldTransform.WithDefault | backend/src/transform/dsl/matrix.rs:261-264 | the default is set and nothing else changes |
| Matrix.FieldTransform.Required | backend/src/transform/dsl/matrix.rs:267-270 | the field becomes required and nothing else changes |
| Matrix.FieldTransform.GetSources | backend/src/transform/dsl/matrix.rs:273-282 | the single source first, then the multiple sources in their order as the tail: exactly those columns |
| Matrix.NewMatrix | backend/src/transform/dsl/matrix.rs:130-138 | a new matrix has the default version, no description, no source format, no transforms and no expansion |
| Matrix.FromSource | backend/src/transform/dsl/matrix.rs:216-226 | a plain transform reading exactly the one column |
| Matrix.FromSources | backend/src/transform/dsl/matrix.rs:229-239 | a plain transform reading exactly the given columns with the given separator |
| Matrix.FromConstant | backend/src/transform/dsl/matrix.rs:242-252 | a plain transform holding the constant and reading no column |
| Matrix.SourceColumns | backend/src/transform/dsl/matrix.rs:156-185 | a strictly sorted list (sorted and deduplicated) of exactly the columns the matrix references: transform sources, the split-role source, variant condition columns and override sources |
| Matrix.TargetFields | backend/src/transform/dsl/matrix.rs:188-190 | exactly the transform keys, each once |
| Matrix.ValidateHeaders | backend/src/transform/dsl/matrix.rs:193-205 | Ok exactly when every referenced column is a header; otherwise the non-empty sorted list of exactly the referenced columns that are missing |
| Matrix.EmptyMatrixReadsNothing | backend/src/transform/dsl/matrix.rs:130-138 | a new matrix references no column, so every header set validates |
| Matrix.SplitRoleSourceReferenced | backend/src/transform/dsl/matrix.rs:163-167 | the split-role source column is among the source columns |
| Executor.IsEmptyExactly | backend/src/transform/dsl/executor.rs:306-314 | empty means null, blank text, or an empty array or object; numbers and booleans are never empty |
| Executor.PartOf | backend/src/transform/dsl/executor.rs:259-273 | a column contributes to a concatenation exactly when it is text that is not blank, and then it contributes its trimmed text |
| Executor.ConcatPartsMembers | backend/src/transform/dsl/executor.rs:259-273 | the parts are exactly the contributions of the source columns, and there are none exactly when no column contributes |
| Executor.ConcatPartsAppend | backend/src/transform/dsl/executor.rs:259-273 | the parts of two column lists one after the other are the parts of the first followed by those of the second, so order and repeats of the columns are kept |
| Executor.ConcatPartsOne | backend/src/transform/dsl/executor.rs:259-273 | one column contributes its trimmed text when it holds non-blank text, and nothing otherwise |
| Executor.InitialValue | backend/src/transform/dsl/executor.rs:255-275 | the value of the single source column when there is one (None when the row lacks it); else the non-empty concatenation of the parts joined with the separator; else the constant |
| Executor.ApplyOpsAppend | backend/src/transform/dsl/executor.rs:286-290 | running a sequence of operations is running its first half and then its second half |
| Executor.ApplyOpsFirst | backend/src/transform/dsl/executor.rs:286-290 | the first operation sees the input and the rest see its result |
| Executor.ApplyOpsPrefix | backend/src/transform/dsl/executor.rs:286-290 | each operation runs on the result of the ones before it |
| Executor.WithOperationRunsLast | backend/src/transform/dsl/matrix.rs:255-258 | an operation added with `with_operation` runs after all earlier ones |
| Executor.StartValue | backend/src/transform/dsl/executor.rs:279-283 | a filled value is kept; an unfilled one is replaced by the default when there is one |
| Executor.TransformValue | backend/src/transform/dsl/executor.rs:254-303 | with a start value, the operations run on it in order and their result is returned unless it is empty, in which case the default is; without a start value there is no result; an empty result is always the default |
| Executor.ApplyTransform | backend/src/transform/dsl/executor.rs:254-303 | the loop over the operations computes `TransformValue` of the row and the transform |
| Executor.Effective | backend/src/transform/dsl/executor.rs:215-235 | an override for the field replaces the matrix's transform; otherwise the matrix's transform applies |
| Executor.Resolve | backend/src/transform/dsl/executor.rs:195-251 | a non-object is skipped; a row is skipped exactly for the required fields that have no filled value; an emitted record is non-empty, has only matrix fields and holds every required field non-empty; a row with nothing to emit is dropped |
| Executor.ResolveCases | backend/src/transform/dsl/executor.rs:237-248 | missing required fields skip the row; otherwise the record is emitted unless it is empty |
| Executor.AddField | backend/src/transform/dsl/executor.rs:215-235 | one field of the loop: a kept value is written to the output, a lacking required field is added to the missing list, anything else changes nothing |
| Executor.CollectFields | backend/src/transform/dsl/executor.rs:215-243 | the output holds exactly the kept fields with their values, and the missing list exactly the lacking required fields, each once |
| Executor.TransformRowWithOverrides | backend/src/transform/dsl/executor.rs:195-251 | the outcome reports the row's resolution: a record, nothing, or a skipped row with its reason and missing fields |
| Executor.MappedRole | backend/src/transform/dsl/executor.rs:128-144 | a mapped role is replaced by its mapping, an unmapped one is kept |
| Executor.RoleParts | backend/src/transform/dsl/executor.rs:121 | the role value split on the separator, each piece trimmed |
| Executor.FiredPairs | backend/src/transform/dsl/executor.rs:147-171 | at most one pair per variant |
| Executor.FiredPairsMembers | backend/src/transform/dsl/executor.rs:147-171 | every pair is the row with the overrides of a variant whose condition column is absent or filled; every such variant gives its pair; there are no pairs exactly when no variant fires |
| Executor.FiredPairsAppend | backend/src/transform/dsl/executor.rs:147-171 | the pairs of two variant lists one after the other are the pairs of the first followed by those of the second, so variant order and repeats are kept |
| Executor.FiredPairsOne | backend/src/transform/dsl/executor.rs:147-171 | one variant yields its pair with its overrides when it fires, and nothing otherwise |
| Executor.FirePairs | backend/src/transform/dsl/executor.rs:147-171 | the loop over the variants yields `FiredPairs` |
| Executor.Expanded | backend/src/transform/dsl/executor.rs:98-173 | at least one pair; non-objects and matrices without expansion yield the row itself; a split-role expansion with an empty role value or separator yields the row itself; a multiple-columns expansion yields the fired pairs, or the row itself when no variant fires |
| Executor.ExpandRow | backend/src/transform/dsl/executor.rs:98-173 | the method's pairs are `Expanded` of the row |
| Executor.SplitRoleExpansion | backend/src/transform/dsl/executor.rs:111-145 | a role value with two or more parts yields one row per part, with the mapped role written into the source column and forced onto `creatorRole` |
| Executor.SplitRoleSinglePart | backend/src/transform/dsl/executor.rs:123-125 | a role value without the separator leaves the row as it is |
| Executor.ResolvePairs | backend/src/transform/dsl/executor.rs:76-95 | filing the outcomes of one row's pairs appends exactly their records and skips |
| Executor.Execute | backend/src/transform/dsl/executor.rs:76-95 | no error is recorded; the records are those of every pair in order, and every skip is reported with its row, reason and missing fields |
| Executor.RecordsAreNonEmptyObjects | backend/src/transform/dsl/executor.rs:246-248 | every emitted record is a non-empty object |
| Executor.EveryPairAccounted | backend/src/transform/dsl/executor.rs:76-95 | records, skips and dropped pairs add up to the number of pairs |
| Executor.AtLeastOneResolutionPerRow | backend/src/transform/dsl/executor.rs:98-173 | every row yields at least one pair |
| Models.PartyId.IpiOf | backend/src/models/mod.rs:44-50 | an IPI exists exactly for IPI and both-kind identifiers |
| Models.PartyId.IsniOf | backend/src/models/mod.rs:53-59 | an ISNI exists exactly for ISNI and both-kind identifiers |
| Models.ToCode | backend/src/models/mod.rs:116-130 | each role's code is one of the spellings accepted for that role, one or two letters long |
| Models.RoleOfSpelling | backend/src/models/mod.rs:98-111 | an upper-case spelling names a role only when it is one of the spellings accepted for that role, and no role when it is none of them |
| Models.FromCode | backend/src/models/mod.rs:97-113 | the code is trimmed and upper-cased, then read as a spelling: a role exactly when some role accepts that spelling |
| Models.RoleOfOwnCode | backend/src/models/mod.rs:97-130 | every role's code reads back as that role |
| Models.FromOptional | backend/src/models/mod.rs:34-41 | no identifier exactly when both parts are absent; otherwise one whose parts are the given ones, of kind Both exactly when both are present |
| Models.FromOptionalOfParts | backend/src/models/mod.rs:34-59 | rebuilding an identifier from its parts gives it back |
| Models.FromCodeOfToCode | backend/src/models/mod.rs:265-269 | every role's code reads back as that role |
| Models.FromCodeIgnoresCase | backend/src/models/mod.rs:97-113 | a lower-cased code reads as the code itself |
| Models.FromCodeRejectsUnknown | backend/src/models/mod.rs:257-262 | "INVALID" is no role |
| Models.GroupedWork.constructor | backend/src/models/mod.rs:211-223 | a new work holds the ISWC and title, no creators or participants, the Original type and no optional fields |
| Models.GroupedWork.AddCreator | backend/src/models/mod.rs:226-228 | the creator is appended |
| Grouper.CreatorId | backend/src/transform/grouper.rs:89-103 | no identifier when both IPI and ISNI are absent; otherwise the "Both", "Ipi" or "Isni" object with the right value |
| Grouper.CreatorEntry | backend/src/transform/grouper.rs:82-111 | an entry exists exactly when the row has a role and an identifier, and it is the object of the identifier and the role |
| Grouper.ClassicalInfo | backend/src/transform/grouper.rs:146-159 | each classical field is present exactly when given, `opus` and `catalogNumber` as JSON strings and `numberOfVoices` as a JSON number; no other key appears, and the object is empty exactly when none is given |
| Grouper.BuildWork | backend/src/transform/grouper.rs:113-162 | a built work is an object that always has its ISWC, title, creators and an empty participants array, and has no key besides those four and the seven optional ones `build` may insert (creationYear, instrumental, language, bpm, key, workType, classicalInfo) |
| Grouper.BuildWorkOptionalFields | backend/src/transform/grouper.rs:125-130 | creation year and instrumental are present exactly when given |
| Grouper.BuildWorkCreationYear | backend/src/transform/grouper.rs:125-127 | a given creation year is stored under `creationYear` as a JSON number |
| Grouper.BuildWorkInstrumental | backend/src/transform/grouper.rs:128-130 | a given instrumental flag is stored under `instrumental` as a JSON boolean |
| Grouper.BuildWorkLanguageBpm | backend/src/transform/grouper.rs:131-136 | language and bpm are present exactly when given; a given language is stored under `language` as a JSON string, a given bpm under `bpm` as a JSON number |
| Grouper.BuildWorkOtherOptionalFields | backend/src/transform/grouper.rs:137-159 | key, work type and classical info are present exactly when given; the key is a JSON string, the work type is wrapped as `{"type": v}`, and the classical info is the object `ClassicalInfo` builds |
| Grouper.BuildWorkHasNoNull | backend/src/transform/grouper.rs:124-161 | no field of a built work is null |
| Grouper.WorkBuilder.constructor | backend/src/transform/grouper.rs:65-80 | a builder holds the header fields of its first row and no creators |
| Grouper.WorkBuilder.AddCreator | backend/src/transform/grouper.rs:82-111 | the row's creator entry is appended when there is one |
| Grouper.WorkBuilder.Build | backend/src/transform/grouper.rs:113-162 | the built work is `BuildWork` of the header and the creators |
| Grouper.Seed | backend/src/transform/grouper.rs:36-43 | the first record with the ISWC, found exactly when the ISWC occurs |
| Grouper.IswcsAreRecordIswcs | backend/src/transform/grouper.rs:36-43 | the grouped ISWCs are exactly the string `iswc` values of the records |
| Grouper.SeedIsFirst | backend/src/transform/grouper.rs:36-43 | the seed is the earliest record with the ISWC |
| Grouper.GroupedIsFirstWins | backend/src/transform/grouper.rs:33-46 | each ISWC's group holds the header of its first record and the creators of all its records in order |
| Grouper.Absorb | backend/src/transform/grouper.rs:37-42 | one record: the builders follow the grouping, a new ISWC gets a fresh builder and the others keep theirs |
| Grouper.AddTo | backend/src/transform/grouper.rs:42 | adding a record's creator changes only its ISWC's group |
| Grouper.GroupRows | backend/src/transform/grouper.rs:36-43 | after the loop the builders hold exactly the grouping of all records |
| Grouper.BuildAll | backend/src/transform/grouper.rs:45 | one built work per builder, each key once |
| Grouper.FlatToGrouped | backend/src/transform/grouper.rs:33-46 | exactly one work per distinct ISWC, each the work of that ISWC, with no repeats |
| Grouper.WorkOfNamesIswc | backend/src/transform/grouper.rs:117 | the work of an ISWC carries that ISWC |
| Grouper.IgnoredRecord | backend/src/transform/grouper.rs:36-43 | a record without a string `iswc` changes nothing |
| Grouper.FirstWins | backend/src/transform/grouper.rs:36-43 | later records never change an ISWC's header |
| Grouper.CreatorsBounded | backend/src/transform/grouper.rs:82-111 | a work has at most one creator per record with its ISWC |
| Grouper.CreatorsAppend | backend/src/transform/grouper.rs:36-43 | the creators of more records are appended in order |
| Registry.Compatibility | backend/src/cache/mod.rs:121-133 | the score counts the stored columns, and no more matches than columns |
| Registry.CountMatches | backend/src/cache/mod.rs:126-130 | the number of stored columns, by position, whose lower-cased form is among the lower-cased CSV columns |
| Registry.Score.Ratio | backend/src/cache/mod.rs:121-133 | 0 without stored columns; otherwise the share of matching columns, between 0 and 1 |
| Registry.CompatibilityRange | backend/src/cache/mod.rs:121-133 | the ratio lies between 0 and 1, is 0 without stored columns, and passes the threshold exactly when it exceeds one half |
| Registry.CompatibilityIgnoresCase | backend/src/cache/mod.rs:262-270 | lower-casing either column list leaves the score unchanged |
| Registry.AllFoundIsFullMatch | backend/src/cache/mod.rs:121-133 | when every stored column appears in the CSV, every column matches |
| Registry.TwoOfThreeColumns | backend/src/cache/mod.rs:251-259 | two of three stored columns found scores 2 of 3 |
| Registry.SortByRank | backend/src/cache/mod.rs:111-115 | the candidates sorted by decreasing rank, a permutation of the input |
| Registry.Rank | backend/src/cache/mod.rs:111-115 | a candidate without stored columns, without a match or with a zero success rate ranks 0; at full success rate the rank is the compatibility score |
| Registry.PermutedCandidates | backend/src/cache/mod.rs:96-118 | after the sort, every candidate is a stored entry with its score above one half, every such entry is there, and no id repeats |
| Registry.Slug | backend/src/cache/mod.rs:223-236 | the slug is lower-case alphanumeric words joined by single dashes |
| Registry.GenerateId | backend/src/cache/mod.rs:223-236 | an id is the slug of the name, a dash, then the decimal millisecond timestamp |
| Registry.SlugIdempotent | backend/src/cache/mod.rs:223-236 | the slug of a slug is itself |
| Registry.SlugKeepsAlphanumerics | backend/src/cache/mod.rs:224-233 | the letters and digits of the slug are exactly those of the lower-cased name, in order: dashing and joining only add or drop dashes |
| Registry.ImportName | backend/src/cache/mod.rs:167-189 | the given name, else the file stem, else "imported" |
| Registry.SingleSources | backend/src/cache/mod.rs:167-189 | the recorded columns are exactly the single sources of the transforms, each as many times as transforms read it |
| Registry.NextRate | backend/src/cache/mod.rs:192-209 | the moving average stays within 0 and 1, never falls on success and never rises on failure |
| Registry.RatesStayInRange | backend/src/cache/mod.rs:192-209 | any sequence of uses keeps a rate within 0 and 1 |
| Registry.StatsUpdated | backend/src/cache/mod.rs:192-209 | one use changes only the used entry: rate, last use and count; other entries and the stored matrix are unchanged |
| Registry.MatrixRegistry.constructor | backend/src/cache/mod.rs:51-59 | a new registry holds no matrices |
| Registry.MatrixRegistry.LoadAll | backend/src/cache/mod.rs:62-82 | the loaded matrices are added by id |
| Registry.MatrixRegistry.Get | backend/src/cache/mod.rs:90-92 | the stored entry for a known id, None for an unknown one |
| Registry.MatrixRegistry.FindCompatible | backend/src/cache/mod.rs:96-118 | exactly the entries scoring above one half, each once, ranked by decreasing score × success rate |
| Registry.MatrixRegistry.Save | backend/src/cache/mod.rs:136-164 | a new entry under the generated id with full success rate and no use; on an I/O failure an error and no change |
| Registry.MatrixRegistry.Import | backend/src/cache/mod.rs:167-189 | a read or parse failure and a save failure become messages and change nothing; otherwise exactly one entry is added or replaced under the generated id: the matrix, the chosen name, the single-source columns with their multiplicity, created now, never used, with full success rate |
| Registry.MatrixRegistry.UpdateStats | backend/src/cache/mod.rs:192-209 | the registry after one recorded use |
| Registry.MatrixRegistry.Delete | backend/src/cache/mod.rs:212-220 | a known id is removed, and stays removed even when the file removal then fails and its error is returned; an unknown id is an error and changes nothing |
| Parser.Position | backend/src/parser/mod.rs:106-122 | the index of a separator in the list `; , TAB |`, or the list's length for any other character |
| Parser.DetectDelimiter | backend/src/parser/mod.rs:106-122 | the chosen delimiter has the largest count in the first line, ties going to the earlier separator, and `;` when none occurs |
| Parser.ChosenUnique | backend/src/parser/mod.rs:106-122 | the rule picks exactly one delimiter |
| Parser.NoSeparatorGivesSemicolon | backend/src/parser/mod.rs:106-122 | a first line without any separator gives `;` |
| Parser.Cell | backend/src/parser/mod.rs:178-184 | the cleaned cell is the trimmed cell with quotes cut from both ends only, no longer than the raw one, and neither starts nor ends with a quote |
| Parser.CleanCellUnchanged | backend/src/parser/mod.rs:178-184 | a cell without surrounding whitespace or quotes is kept as it is |
| Parser.HeadersOf | backend/src/parser/mod.rs:153-156 | one header per piece of the first line, each cleaned |
| Parser.FieldsKeys | backend/src/parser/mod.rs:178-184 | a record has exactly the headers as keys |
| Parser.FieldsValues | backend/src/parser/mod.rs:178-184 | each header holds the cleaned cell at its position, or "" when the line is short |
| Parser.RowRecord | backend/src/parser/mod.rs:178-184 | the loop over the headers builds `RecordOf` the line |
| Parser.ExtraCellsIgnored | backend/src/parser/mod.rs:178-184 | cells beyond the headers are ignored |
| Parser.NonBlank | backend/src/parser/mod.rs:171-173 | only the lines that are not blank are kept |
| Parser.NonBlankMembers | backend/src/parser/mod.rs:171-173 | a line is kept exactly when it is a data line and is not blank |
| Parser.NonBlankAppend | backend/src/parser/mod.rs:171-173 | filtering distributes over concatenation, so the kept lines keep their order |
| Parser.RecordsOfNonBlank | backend/src/parser/mod.rs:171-186 | one record per non-blank data line, in order |
| Parser.RecordsHaveHeaderKeys | backend/src/parser/mod.rs:178-186 | every record is an object keyed by exactly the headers |
| Parser.LinesEmptyIff | backend/src/parser/mod.rs:153-160 | a text has no lines exactly when it is empty |
| Parser.ParseRows | backend/src/parser/mod.rs:168-187 | the loop produces the records of the data lines |
| Parser.ParseCsv | backend/src/parser/mod.rs:144-190 | empty content is an error; otherwise the records of the data lines under the first line's headers |
| Parser.ParseStringWithMetadata | backend/src/parser/mod.rs:223-268 | empty content is the empty-file error; otherwise the given delimiter and encoding, the headers of the first line and one record per non-blank later line |
| Parser.ParseAuto | backend/src/parser/mod.rs:208-220 | empty content is the empty-file error; otherwise the detected delimiter, the given encoding, the headers of the first line and one record per non-blank later line, read with the detected delimiter |
| Ai.BraceSpan | backend/src/ai/mod.rs:289-295 | found exactly when a `{` precedes a `}`; the span runs from the first `{` of the reply to its last `}` |
| Ai.JsonBlock | backend/src/ai/mod.rs:265-272 | present exactly when there is a json span; a slice of the span with no whitespace at either end |
| Ai.GenericBlock | backend/src/ai/mod.rs:275-286 | present exactly when there is a generic span; a slice of the span with no whitespace at either end |
| Ai.ExtractJson | backend/src/ai/mod.rs:263-298 | the trimmed ```` ```json ```` block, else the trimmed generic fenced block, else the span from the first `{` to the last `}`, else the whole reply |
| Ai.RawObjectUnchanged | backend/src/ai/mod.rs:311-326 | a reply that is a bare object without fences is returned as it is |
| Ai.UnstructuredUnchanged | backend/src/ai/mod.rs:297 | a reply with no fence and no braces is returned as it is |
| Ai.JsonFenceContent | backend/src/ai/mod.rs:265-272 | the same block is returned trimmed |
| Ai.JsonFenceSpan | backend/src/ai/mod.rs:265-272 | with a "```\n" after the first ```` ```json ````, the block spans from after the opening fence to the first such "```\n" |
| Ai.NoJsonFence | backend/src/ai/mod.rs:265-272 | a reply without ```` ```json ```` has no json block |
| Ai.JsonSpanFences | backend/src/ai/mod.rs:265-272 | a json span starts right after the first ```` ```json ```` of the reply and ends where a "```" starts |
| Ai.JsonFenceAtLastFence | backend/src/ai/mod.rs:265-272 | with no "```\n" after the first ```` ```json ````, the block ends at the last "```" of the reply, and is returned trimmed |
| Ai.JsonFenceEndingReply | backend/src/ai/mod.rs:265-272 | a reply ending in "```" with no other backquote after its ```` ```json ```` returns the trimmed text between the fences |
| Ai.GenericFenceSpan | backend/src/ai/mod.rs:275-286 | a generic block starts after the line of the first "```" (right after it when no line break follows) and ends at the first "```" from there |
| Ai.GenericSpanFences | backend/src/ai/mod.rs:275-286 | a generic span ends at a "```" and holds no "```" |
| Ai.GenericBlockOfSpan | backend/src/ai/mod.rs:275-286 | the generic block is returned trimmed when there is no json block |
| Ai.GenerateWithRetries | backend/src/ai/mod.rs:135-159 | the first successful attempt is returned, with a fixed delay after each failure but the last; an error only after the last allowed attempt |
| Pipeline.DefaultOptions | backend/src/transform/pipeline.rs:76-84 | ten preview rows, no explicit matrix, validation, cache and saving all on |
| Pipeline.Failures | backend/src/transform/pipeline.rs:435-453 | the invalid records, in increasing index order, each with the validator's messages |
| Pipeline.FailuresComplete | backend/src/transform/pipeline.rs:435-453 | every invalid record is among the failures |
| Pipeline.ValidationFacts | backend/src/transform/pipeline.rs:435-453 | valid plus invalid is the record count; at most ten failures are listed, and they are the first ones |
| Pipeline.AllValidIff | backend/src/transform/pipeline.rs:435-453 | nothing is invalid exactly when every record passes the validator |
| Pipeline.ValidateRecords | backend/src/transform/pipeline.rs:435-453 | the loop's report is the counts and the first ten failures |
| Pipeline.TryMatrix | backend/src/transform/pipeline.rs:353-376 | the trial holds the execution of the matrix on every row and its report, everything valid when validation is skipped |
| Pipeline.SkippedValidationAllValid | backend/src/transform/pipeline.rs:353-376 | with validation skipped every record counts as valid; otherwise at most all are valid |
| Pipeline.AfterTrialsKeepsMatrices | backend/src/transform/pipeline.rs:292-311 | recorded uses add and remove no entry and change no stored matrix |
| Pipeline.Preview | backend/src/transform/pipeline.rs:321-322 | the first min(preview rows, record count) records |
| Pipeline.Generate | backend/src/transform/pipeline.rs:318-349 | a generator failure is returned and changes nothing; otherwise the generated matrix is saved unless saving is off or fails, its trial is returned, and only a saved matrix gets a use recorded |
| Pipeline.TryCached | backend/src/transform/pipeline.rs:281-315 | the compatible templates in rank order, each tried and recorded once, stopping at the first that yields a valid record; no hit means every template was tried without success |
| Pipeline.TryInOrder | backend/src/transform/pipeline.rs:291-310 | the templates are tried in list order and each use is recorded with its success; every template before the hit failed, the hit is the trial of the first that works, and without a hit all were tried |
| Pipeline.TryTemplate | backend/src/transform/pipeline.rs:292-311 | one template: its trial, whether it works, and one recorded use |
| Pipeline.AfterTrialsStep | backend/src/transform/pipeline.rs:292-311 | one more tried template records one more use |
| Pipeline.GetMatrixWithFallback | backend/src/transform/pipeline.rs:265-350 | an explicit matrix is tried without touching the registry; else the first cached template that works; else the generated matrix |
| Pipeline.Fallback | backend/src/transform/pipeline.rs:281-350 | without an explicit matrix: the cached templates, then the generator |
| Pipeline.GenerateFallback | backend/src/transform/pipeline.rs:318-349 | after every template failed, the generator's outcome |
| Pipeline.TransformParsed | backend/src/transform/pipeline.rs:177-245 | an empty table is refused before any matrix is chosen and leaves the registry alone; otherwise the run is the outcome of `get_matrix_with_fallback` (`FallbackOutcome` along the returned route): its error is the run's error, and its trial gives the matrix, template id, records and report; the grouped works group those records by ISWC, and the CSV facts are the parsed ones |
| Pipeline.TransformRecords | backend/src/transform/pipeline.rs:162-174 | records in hand are read as UTF-8 with `,`; an empty list is refused and leaves the registry alone; otherwise the same result as `TransformParsed`, tied to `get_matrix_with_fallback`'s outcome in the same way: the flat records are the chosen matrix applied to every record, the grouped works group them, the report is the validation verdict, a template id names the stored matrix used, and an explicit matrix path means that matrix and no template |
| Pipeline.TransformWithMatrix | backend/src/transform/pipeline.rs:456-480 | one matrix: the records, their grouping, the report, the skipped count and no errors |
| Pipeline.FormatDelimiter | backend/src/transform/pipeline.rs:248-256 | the display form is "?" exactly for a character that is not a detectable delimiter, and "TAB" exactly for the tab |
| Pipeline.FormatDelimiterDistinguishes | backend/src/transform/pipeline.rs:248-256 | the detectable delimiters have pairwise distinct display forms |

## Left out

- Operations.ReplaceAll: the pattern is treated as literal text. The source compiles it as a regular expression, and regex matching is not modelled.
- Operations.ReplaceAll: the replacement is inserted literally. The source's `Regex::replace_all` expands `$0`, `$1` and `$name` group references in it, and that expansion is not modelled.
- Operations.ReplaceAll: a pattern that is not a valid regular expression leaves the value unchanged in the source; since every pattern is literal here, that path has no counterpart.
- Operations.FindYear: the year pattern is read as four consecutive ASCII digits. Other regex semantics are not modelled.
- Text.ToLower: case mapping is ASCII only. The source's Unicode `to_lowercase`/`to_uppercase` tables are not modelled, and `is_alphanumeric` is ASCII only too.
- Floating-point numbers are not modelled. JSON numbers are integers, `as_i64` is a range check on them, and the registry's success rate is a `real`.
- Files, serde and the clock become parameters. An I/O failure is an `Option<string>`, and the time is `now`/`millis`. One `now` serves a whole run, although the source reads the clock at each use.
- The AI client is left out: the HTTP call, `call_api`, `from_env`, prompt building and the JSON schema loading. The generator and each attempt's result are function parameters.
- The schema validator is a function parameter. The JSON Schema checking itself is not modelled.
- Logging is left out (`eprintln!`, the tracing calls). So is the loop that only logs grouped-record validation (transform/pipeline.rs:216-233).
- HashMap iteration order is not modelled. The matrix's transforms and the map operation's entries are read in an order the model leaves open: a sequence for the mapping, a nondeterministic choice in the methods.
- Registry.MatrixRegistry.UpdateStats: the `u32` use count is unbounded, so its overflow is not modelled.
- Registry.SortByRank: the sort is proved to be a descending permutation. The relative order of equal scores, which the stable sort keeps, is not stated.
- Parser.ParseCsv: the "No headers found" branch is left out. `lines()` of non-empty content always yields a line, so the branch cannot be reached.
- Parser.ParseCsv: the reader's I/O errors ("Cannot read header", "Cannot read line", raised for example on bytes that are not UTF-8) are left out. The content is an already decoded string.
- Encoding detection and decoding (`detect_encoding`, `decode_content`) are left out. They work on byte-level heuristics, so the encoding is a parameter of `Parser.ParseAuto`.
- The registry is a single in-memory object. The source builds a fresh `MatrixRegistry::new()` from disk at each pipeline step (transform/pipeline.rs:283, 300, 330, 344). Disk and memory can disagree there:
  - `update_stats` ignores a failed write (`let _ = fs::write`, cache/mod.rs:204-207), so the next reload loses that use;
  - `delete` drops the entry from memory before `remove_file` can fail (cache/mod.rs:213-215), so a later reload brings it back.
  The model keeps one registry across the run and does not model these reload effects. Registry.MatrixRegistry.Delete does model the in-memory half: the entry is gone even when the error is returned.
- `transform_csv` and `transform_bytes` are left out: they only read a file and then call the parsing and `transform_parsed` that are modelled.
- Ai.GenericBlockOfSpan: the content of a generic fenced block is stated through its span lemmas, not as one closed-form function of the reply.
- Models.RoleOfSpelling: the spellings of different roles are not proved pairwise distinct (the `Spells` sets are disjoint by inspection); RoleOfOwnCode proves it for the codes.
- Registry.Rank: the rank is the score times the success rate. Only linear facts about it are stated: zero cases and the full-rate case. The bound in [0, 1] of a product of two such reals is not stated.
- Also left out: `operations_description`, `example_matrix`, `to_json`/`from_json`, the registry's `list`, `execute_hashmap` and the summary helpers. They only describe, serialise or print.
- The HTTP API, the CLI entry point and the prompt text are not part of this model.

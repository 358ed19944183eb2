# Lokalise AI translation backend: a verified model of its decision logic

The backend of this Lokalise integration is a Django service. It pulls
translation keys from a Lokalise project, asks an LLM for missing
translations (with glossary terms in the prompt), writes the texts into
the keys and pushes them back. It also validates uploaded translation
files and scores translation quality with BLEU. This project models the
deterministic layer between those HTTP and SDK calls and proves what it
does.

- **BLEU helper** (`BleuScorer`): the tokenizer `preprocess_text` and the fail-soft `compute_bleu_score`. NLTK's `sentence_bleu` is a function parameter that returns a value or raises.
- **Translation pipeline** (`TranslationPipeline`):
  - Glossary-term selection and the glossary section of the prompt.
  - `process_translations`. It classifies keys, translates all or nothing, and writes translations into the Lokalise keys in place; the keys are objects of class `LokaliseKey`. It then uploads every key and marks the results whose upload failed.
  - `translate_with_ai` and the HTTP PUT are oracles.
- **Lokalise service** (`LokaliseService`): the upload options chosen from a file name (`_detect_file_format`), and `upload_translation`, which builds a per-key payload and returns one result per key.
- **Validators and serializer** (`Validators`, `Serializers`): the supported-format table, the file-type, file-size and target-language validators, and `FileUploadSerializer`.
- **Spreadsheet converter** (`ExcelToJson`): column-name cleaning and the row-to-glossary-entry transform, over a sheet already read into memory. Two columns that clean to the same name make every lookup of that name a pandas Series, and testing it raises; the model keeps that exception.
- **Views and service** (`Views`, `TranslationService`): the target-language guard and summary counts of the process-translations endpoint, the quality record, and the glossary context of the fine-tuning prompt.
- **Support modules:** `PyStr` and `PyPath` model the Python string and `os.path` operations the code relies on: `lower`, `split`, `split(c)`, `join`, `strip`, `rfind` and `splitext`. `Wrappers` supplies `Option` and `Result`, and `Glossary` the glossary records.

Imperative source stays imperative:
- Loops become methods. Each method is proved equal to a specification function, and lemmas state the properties of that function.
- A mutated key is a class field that the methods reassign.
- A raised exception is an `Err` value, or an error status in a result record.

The model follows the code where the code and its tests disagree:
- `preprocess_text` only collapses a run of one repeated mark from `.,!?;:` (`re.sub(r'([.,!?;:])\1+', r'\1', ...)`). It deletes no punctuation, although some assertions in `backend/tests/test_bleu_scorer.py` expect deletion.
- `validate_lokalise_file_type` strips two extensions before its ".nested" test, so `a.nested.json` is looked up as `.json`. This never changes the verdict (`Validators.NestedPrefixUnobservable`).
- The separator between a glossary term and its translation in `_format_glossary_terms` is the three characters U+00E2 U+2020 U+2019 written at `backend/translation_service/services/translation_pipeline.py:53` (a UTF-8 right arrow read as Windows-1252). `backend/tests/test_translation_pipeline.py:102` expects the single U+2192.

## Model

| member | source | states |
|---|---|---|
| BleuScorer.CollapseRuns | backend/translation_service/utils/bleu_scorer.py:21 | the collapsed text is no longer than the input, keeps only its characters, starts with its first character, and has no two adjacent equal marks from `.,!?;:` left |
| BleuScorer.CollapseRunsIdentity | backend/translation_service/utils/bleu_scorer.py:21 | a text with no run of repeated marks is left unchanged |
| BleuScorer.CollapseRunsAppend | backend/translation_service/utils/bleu_scorer.py:21 | a run never reaches across a character outside `.,!?;:`, so the two sides collapse separately |
| BleuScorer.CollapseRunsJoin | backend/translation_service/utils/bleu_scorer.py:18-21 | collapsing the space-joined words equals space-joining the collapsed words |
| BleuScorer.CollapseKeepsWordShape | backend/translation_service/utils/bleu_scorer.py:21-24 | a non-empty word without whitespace stays non-empty and without whitespace |
| BleuScorer.CollapseKeepsLowercase | backend/translation_service/utils/bleu_scorer.py:15-21 | a lower-case word stays lower-case |
| BleuScorer.CollapseRunsTrailingRun | backend/translation_service/utils/bleu_scorer.py:21 | a run of k copies of a mark at the end of a word shrinks to one copy, as in "world!!!" becoming "world!"; the rest of the word is kept |
| BleuScorer.PreprocessTextWordwise | backend/translation_service/utils/bleu_scorer.py:15-24 | the tokens are exactly the whitespace-separated words of the input, each lower-cased with its runs collapsed, so no word is dropped, merged or split |
| BleuScorer.PreprocessTextCount | backend/translation_service/utils/bleu_scorer.py:18-24 | the token count equals the number of whitespace-separated words |
| BleuScorer.PreprocessTextEmptyIff | backend/translation_service/utils/bleu_scorer.py:18-24 | the token list is empty exactly when the input is empty or all whitespace |
| BleuScorer.PreprocessTextTokens | backend/translation_service/utils/bleu_scorer.py:15-24 | every token is non-empty, whitespace-free and lower-case, and holds no run of a repeated mark |
| BleuScorer.PreprocessTextOfTokens | backend/translation_service/utils/bleu_scorer.py:15-24 | re-tokenizing a space-joined list of tokens gives the list back |
| BleuScorer.PreprocessTextIdempotent | backend/translation_service/utils/bleu_scorer.py:15-24 | tokenizing the space-joined output again returns the same tokens |
| BleuScorer.PreprocessTextIgnoresCase | backend/translation_service/utils/bleu_scorer.py:15 | lower-casing the input first changes nothing |
| BleuScorer.PreprocessTextIgnoresSpacing | backend/translation_service/utils/bleu_scorer.py:18 | the amount and kind of whitespace between words changes nothing |
| BleuScorer.BleuBlankInputIsZero | backend/translation_service/utils/bleu_scorer.py:45-50 | a blank reference or candidate scores 0.0, whatever the scorer would return |
| BleuScorer.BleuPassesScoreThrough | backend/translation_service/utils/bleu_scorer.py:37-63 | otherwise the score is the scorer's own unscaled value for ([reference tokens], candidate tokens); a raising scorer or tokenizer-data lookup gives 0.0 |
| BleuScorer.BleuIgnoresCaseAndSpacing | backend/translation_service/utils/bleu_scorer.py:15-18 | the score is unchanged when either text is lower-cased while the other has its whitespace normalised |
| PyStr.Words | backend/translation_service/utils/bleu_scorer.py:18 | `str.split()` gives non-empty pieces without whitespace |
| PyStr.Strip | backend/translation_service/utils/excel_to_json.py:44 | `str.strip()` leaves no whitespace at either end, gives "" exactly for blank input, and keeps whitespace-free input unchanged |
| PyStr.SplitOnCount | backend/translation_service/services/translation_pipeline.py:189 | `s.split(' ')` has one more piece than `s` has spaces |
| PyStr.SplitOnJoin | backend/translation_service/services/translation_pipeline.py:59 | when no part contains the separator, splitting the joined parts on it gives the parts back |
| PyPath.SplitExt | backend/translation_service/validators.py:74 | `os.path.splitext`: the root and extension concatenate to the name; the extension is empty, or a dot followed by text with no dot or slash |
| PyPath.SplitExtLower | backend/translation_service/validators.py:73-74 | splitting the lower-cased name is lower-casing both parts of the split |
| ExcelToJson.CleanColumn | backend/translation_service/utils/excel_to_json.py:25 | a cleaned column name is lower-case, has no space, and has no whitespace at its ends |
| ExcelToJson.CleanColumns | backend/translation_service/utils/excel_to_json.py:25 | every column name is cleaned, in place and order |
| ExcelToJson.CleanColumnIdempotent | backend/translation_service/utils/excel_to_json.py:25 | cleaning a cleaned name again changes nothing |
| ExcelToJson.ColumnIndex | backend/translation_service/utils/excel_to_json.py:83 | the result is -1 or the position of a column with that name, and no earlier column has that name |
| ExcelToJson.ColumnIndexAbsent | backend/translation_service/utils/excel_to_json.py:83 | the position is -1 exactly when no column has the name |
| ExcelToJson.LookupColumnSpec | backend/translation_service/utils/excel_to_json.py:40-93 | `col in row.index` fails exactly for a name that is no column; the lookup is a Series exactly when two columns share the name; otherwise it is the cell of the one column with that name |
| ExcelToJson.FirstValue | backend/translation_service/utils/excel_to_json.py:82-123 | a candidate loop raises only with the "truth value of a Series is ambiguous" message |
| ExcelToJson.FirstValueSpec | backend/translation_service/utils/excel_to_json.py:82-93 | the value is None exactly when no candidate column has a non-NaN cell or a duplicated name; otherwise the first such candidate decides: its stripped text, or the Series exception |
| ExcelToJson.FindValue | backend/translation_service/utils/excel_to_json.py:82-93 | the candidate loop with `break` computes the first-candidate value or exception |
| ExcelToJson.LanguageTranslation | backend/translation_service/utils/excel_to_json.py:81-108 | a translation entry found for a language carries that language; the language raises exactly when its translation or its description loop raises |
| ExcelToJson.BuildTranslation | backend/translation_service/utils/excel_to_json.py:81-108 | one pass of the language loop computes that language's entry or exception |
| ExcelToJson.RowTranslations | backend/translation_service/utils/excel_to_json.py:55-123 | the language loop raises only with the Series message |
| ExcelToJson.BuildTranslations | backend/translation_service/utils/excel_to_json.py:55-108 | the language loop produces the translations for en, es, fr, de, it, ja, ko, zh in that order, or the first exception |
| ExcelToJson.RowTranslationsFailsIff | backend/translation_service/utils/excel_to_json.py:55-108 | the language loop raises exactly when one language's lookups raise |
| ExcelToJson.RowEntry | backend/translation_service/utils/excel_to_json.py:43-123 | building a row's entry raises only with the Series message |
| ExcelToJson.BuildEntry | backend/translation_service/utils/excel_to_json.py:43-108 | the entry dict of a row is built, or the exception of its part-of-speech, description or language lookups is returned |
| ExcelToJson.ExcelToJson | backend/translation_service/utils/excel_to_json.py:25-123 | the row loop computes the conversion over the cleaned column names, stopping at the first exception |
| ExcelToJson.ConvertMissingTerm | backend/translation_service/utils/excel_to_json.py:40-123 | with rows but no "term" column, the conversion fails with "Error converting Excel to JSON: 'term'" |
| ExcelToJson.ConvertWithFailsIff | backend/translation_service/utils/excel_to_json.py:38-110 | the row loop fails exactly when some row fails, and then with that row's exception |
| ExcelToJson.ConvertFailsIff | backend/translation_service/utils/excel_to_json.py:38-123 | the conversion fails exactly when some row raises; the message is the KeyError for 'term' when there is no "term" column and the Series message otherwise |
| ExcelToJson.RowFailsIff | backend/translation_service/utils/excel_to_json.py:38-108 | a row raises exactly when there is no "term" column or two "term" columns, or when its term is set and the part of speech, the description or some language's candidate lookups meet a duplicated name |
| ExcelToJson.ConvertDistinctFailsIff | backend/translation_service/utils/excel_to_json.py:38-123 | with distinct cleaned column names, the conversion fails exactly when there are rows and no "term" column |
| ExcelToJson.DuplicatedTermFails | backend/translation_service/utils/excel_to_json.py:25-123 | two columns cleaned to "term" make a sheet with one row fail with the Series message |
| ExcelToJson.TermRows | backend/translation_service/utils/excel_to_json.py:38-41 | every listed position is a row of the sheet |
| ExcelToJson.TermRowsSpec | backend/translation_service/utils/excel_to_json.py:38-41 | the listed rows are exactly the rows whose term cell is not NaN, each once and in increasing order |
| ExcelToJson.ConvertRowwise | backend/translation_service/utils/excel_to_json.py:38-110 | a successful conversion has one entry per row with a non-NaN term, and entry k is built from the k-th such row, so only NaN-term rows are skipped and order is kept |
| ExcelToJson.RowEntryFields | backend/translation_service/utils/excel_to_json.py:43-48 | the term is stripped; part of speech and description are null exactly for NaN cells, "" for a missing column, and otherwise stripped text |
| ExcelToJson.OptionalTextStripped | backend/translation_service/utils/excel_to_json.py:45-46 | an optional cell gives null exactly when it is NaN, and otherwise a stripped string |
| ExcelToJson.RowTranslationsOrdered | backend/translation_service/utils/excel_to_json.py:55-108 | the translations for the first n languages come from those languages, in strictly increasing language order |
| ExcelToJson.RowTranslationsShape | backend/translation_service/utils/excel_to_json.py:55-108 | a row has at most one translation per language, each one non-empty and stripped, and a description only when that is non-empty |
| ExcelToJson.RowTranslationsMember | backend/translation_service/utils/excel_to_json.py:95-108 | every listed translation belongs to one of the languages, has non-empty stripped text, and has a description only when that is non-empty |
| ExcelToJson.LanguageTranslationShape | backend/translation_service/utils/excel_to_json.py:95-108 | a language's entry carries that language, a non-empty stripped translation, and a description only when that is non-empty |
| ExcelToJson.FirstValueStripped | backend/translation_service/utils/excel_to_json.py:82-93 | a value found by a candidate loop is stripped |
| ExcelToJson.FirstCandidateDecides | backend/translation_service/utils/excel_to_json.py:82-95 | when the first candidate that stops the loop is blank, the language gets no entry even if a later candidate is filled, unless its description loop raises |
| ExcelToJson.UpperCandidateNeverMatches | backend/translation_service/utils/excel_to_json.py:25-61 | the upper-case candidate (`EN`, ...) is never a cleaned column name, so it never matches |
| Validators.SortedFormatKeysSpec | backend/translation_service/validators.py:84 | the sorted key list holds exactly the keys of `LOKALISE_SUPPORTED_FORMATS`, in strictly increasing order |
| Validators.NestedPrefixUnobservable | backend/translation_service/validators.py:76-83 | the key with its ".nested" prefix is supported exactly when the bare extension is |
| Validators.FileTypeKeyCases | backend/translation_service/validators.py:72-80 | the looked-up key is the final extension, or ".nested" plus the extension when that is .json, .yml or .yaml |
| Validators.FileTypeAcceptedIff | backend/translation_service/validators.py:69-87 | no file gives "No file was submitted"; a file passes exactly when its lower-cased final extension is a table key; a name with an empty extension is rejected as type "" |
| Validators.FileTypeIgnoresCase | backend/translation_service/validators.py:73 | lower-casing the file name first changes no verdict |
| Validators.FileSizeBoundary | backend/translation_service/validators.py:100-106 | a file fails exactly when it is larger than max_size_mb MiB; exactly at the limit passes, one byte more fails; the default limit is 10485760 bytes |
| Validators.FileSizeMonotone | backend/translation_service/validators.py:104-106 | a larger limit never rejects a file that a smaller limit accepts |
| Validators.TargetLanguageIff | backend/translation_service/validators.py:52-57 | the language comes back unchanged exactly when it is supported; otherwise the error names it and the supported languages; validating an accepted language again gives the same answer |
| Serializers.ValidateFile | backend/translation_service/serializers.py:29-33 | the file passes exactly when its size is at most 10 MiB, and comes back unchanged; otherwise the message is "File size cannot exceed 10MB" |
| Serializers.ValidateLangIso | backend/translation_service/serializers.py:35-37 | the result is the lower-cased value, character by character, of the same length |
| Serializers.FileFieldValue | backend/translation_service/serializers.py:19-33 | `FileField` plus `validate_file`: a file passes exactly when it has a name, is not empty and is at most 10 MiB, and comes back unchanged; otherwise the no-filename, empty-file or size message, in that order |
| Serializers.CharFieldValue | backend/translation_service/serializers.py:20-23 | `CharField`: a text passes exactly when it is not blank and its stripped form holds no NUL; the value is the non-empty stripped text; otherwise the blank or null-character message |
| Serializers.ListFieldErrorsEmptyIff | backend/translation_service/serializers.py:22-27 | a list field has no item errors exactly when the child field accepts every item |
| Serializers.ListFieldErrorsComplete | backend/translation_service/serializers.py:22-27 | every refused item is reported with its position and the child's message |
| Serializers.ListFieldErrorsSound | backend/translation_service/serializers.py:22-27 | every reported item error names a refused item, with its position and the child's message |
| Serializers.CleanTags | backend/translation_service/serializers.py:22-27 | there is one validated tag per tag sent |
| Serializers.TagErrorsSpec | backend/translation_service/serializers.py:22-27 | the tag errors are empty exactly when every tag passes `CharField`; they name exactly the failing tags, each with its position and message |
| Serializers.ValidateIff | backend/translation_service/serializers.py:18-37 | a form is valid exactly when it has a named, non-empty file of at most 10 MiB, a non-blank language without NUL, and only such tags; then the file is kept, the language is stripped and lower-cased, plural detection is on unless false was sent, and tags default to [] and are each stripped |
| Serializers.FileErrorsEmptyIff | backend/translation_service/serializers.py:19-33 | the file field passes exactly when a named, non-empty file of at most 10 MiB was sent |
| Serializers.LangIsoErrorsEmptyIff | backend/translation_service/serializers.py:20 | the lang_iso field passes exactly when a text that `CharField` accepts was sent |
| Serializers.MissingFieldsReported | backend/translation_service/serializers.py:19-20 | a missing file or lang_iso is always reported as required |
| Serializers.UnnamedOrEmptyFileRefused | backend/translation_service/serializers.py:19 | a file without a name, or an empty one, is refused, and the first error is the file field's no-filename or empty-file message |
| Serializers.BlankLangIsoRefused | backend/translation_service/serializers.py:20 | a lang_iso that is blank once stripped is refused as blank |
| Serializers.ValidateFileAgreesWithValidator | backend/translation_service/serializers.py:31 | the serializer's limit has the same boundary as the file-size validator's default |
| Serializers.ValidateFileBoundary | backend/translation_service/serializers.py:31-33 | exactly 10485760 bytes pass and 10485761 bytes fail |
| Serializers.ValidateLangIsoIdempotent | backend/translation_service/serializers.py:20-37 | validating the language twice is validating it once, and passing an accepted text through `CharField` again gives the same value |
| LokaliseService.LStrip | backend/translation_service/services/lokalise_service.py:50 | `lstrip(c)` gives a suffix of the input that does not start with `c` |
| LokaliseService.OptionsForKeys | backend/translation_service/services/lokalise_service.py:29-54 | the options for json, yaml, xml, properties and strings are the table's rows; every other key gets none |
| LokaliseService.FormatKeyOfExt | backend/translation_service/services/lokalise_service.py:50 | an extension from `splitext` loses exactly its one leading dot |
| LokaliseService.FormatKeyCases | backend/translation_service/services/lokalise_service.py:49-52 | the format key is the extension without its dot, with yml read as yaml |
| LokaliseService.DetectJson | backend/translation_service/services/lokalise_service.py:20-33 | a .json file in any case gets ICU plurals, and nested_json is the case-sensitive ".nested" test on its root |
| LokaliseService.DetectYaml | backend/translation_service/services/lokalise_service.py:20-52 | .yml and .yaml both get the YAML options with nested_yaml |
| LokaliseService.YamlKey | backend/translation_service/services/lokalise_service.py:50-52 | yml is treated as yaml |
| LokaliseService.DetectFixedOptions | backend/translation_service/services/lokalise_service.py:38-46 | the xml, properties and strings options do not depend on the name |
| LokaliseService.DetectOtherEmpty | backend/translation_service/services/lokalise_service.py:54 | an unknown or missing extension gives no options |
| LokaliseService.NestedFlag | backend/translation_service/services/lokalise_service.py:20-27 | for json, yml and yaml, the nested flag is whether the root, not lower-cased, ends with ".nested" |
| LokaliseService.LokaliseKey.constructor | backend/translation_service/services/lokalise_service.py:109-116 | a key starts with its id, name and translations |
| LokaliseService.BuildPayload | backend/translation_service/services/lokalise_service.py:168-175 | the inner loop computes the payload, stopping at the first translation that raises |
| LokaliseService.UploadTranslation | backend/translation_service/services/lokalise_service.py:165-203 | the loop over keys computes the per-key results |
| LokaliseService.PayloadStopsAtError | backend/translation_service/services/lokalise_service.py:169-175 | once a translation raises, the whole payload fails with that error |
| LokaliseService.PayloadSpec | backend/translation_service/services/lokalise_service.py:168-175 | the payload fails exactly when a translation lacks its language or its text; otherwise there is one entry per translation, in order |
| LokaliseService.PayloadEntryDefaults | backend/translation_service/services/lokalise_service.py:170-175 | an entry copies language and text, with is_reviewed defaulting to false and is_fuzzy to true |
| LokaliseService.UploadResultsSpec | backend/translation_service/services/lokalise_service.py:165-203 | there is one result per key, in order, with the key's id and name and that key's own upload outcome, so a failing key does not affect the others |
| LokaliseService.UploadOneIff | backend/translation_service/services/lokalise_service.py:166-201 | a key is uploaded exactly when its payload was built and the PUT answered 200; another status fails with "API error: " and the response text |
| TranslationPipeline.GetRelevantGlossaryTerms | backend/translation_service/services/translation_pipeline.py:22-43 | the loop over the glossary computes the selected terms |
| TranslationPipeline.FirstTranslationSpec | backend/translation_service/services/translation_pipeline.py:29-33 | a translation is found exactly when one has the target language, and it is the first such |
| TranslationPipeline.RelevantTermsAppend | backend/translation_service/services/translation_pipeline.py:26-43 | selecting from two glossary parts is selecting from each, in glossary order |
| TranslationPipeline.RelevantTermsSingle | backend/translation_service/services/translation_pipeline.py:27-41 | an entry is selected exactly when its lower-cased term occurs in the lower-cased source and it has a target translation; the first translation is used; a missing description or part of speech becomes "" and a null one stays null |
| TranslationPipeline.RelevantTermsBound | backend/translation_service/services/translation_pipeline.py:24-43 | there are never more terms than glossary entries |
| TranslationPipeline.RelevantTermsIgnoreCase | backend/translation_service/services/translation_pipeline.py:27 | the letter case of the source text does not matter |
| TranslationPipeline.FormatGlossaryTerms | backend/translation_service/services/translation_pipeline.py:45-61 | the loop computes the glossary section: "" without terms, else the header and one block per term, each block's first line joining term and translation with the three-character separator of line 53 |
| TranslationPipeline.FormatGlossarySpec | backend/translation_service/services/translation_pipeline.py:47-61 | the section is "" exactly without terms; otherwise it starts with "Glossary Terms:\n" and there is one block per term |
| TranslationPipeline.BlockSpec | backend/translation_service/services/translation_pipeline.py:52-59 | a block starts with "- ", the term, " â†’ " (the three characters of line 53) and the translation, and has a Description or Part of Speech line exactly when that value is non-empty; splitting it on line breaks gives its lines back |
| TranslationPipeline.FindLanguageSpec | backend/translation_service/services/translation_pipeline.py:135-139 | the lookup gives the first translation in the language, or None when there is none |
| TranslationPipeline.ClassifySpec | backend/translation_service/services/translation_pipeline.py:135-164 | a key without source text is skipped; one with a target text is skipped unless translation is forced; all others are queued, with has_translation telling whether a target text existed |
| TranslationPipeline.ClassifyKeys | backend/translation_service/services/translation_pipeline.py:133-164 | the classification loop computes the skip results and the queue |
| TranslationPipeline.JobsSpec | backend/translation_service/services/translation_pipeline.py:133-164 | the queue lists exactly the keys classified for translation, in increasing key order, each with what its classification found |
| TranslationPipeline.JobsComplete | backend/translation_service/services/translation_pipeline.py:163-164 | every key classified for translation has a place in the queue |
| TranslationPipeline.SkipsAndJobsCount | backend/translation_service/services/translation_pipeline.py:142-164 | skip results and queued keys together number the keys, and every skip result has status skipped |
| TranslationPipeline.Gather | backend/translation_service/services/translation_pipeline.py:168 | a successful gather has one text per queued key |
| TranslationPipeline.GatherTranslations | backend/translation_service/services/translation_pipeline.py:167-168 | the sequential gather computes all texts, or the first failure |
| TranslationPipeline.GatherSpec | backend/translation_service/services/translation_pipeline.py:167-168 | the gather succeeds exactly when every queued source text translates, and then text q is the translation of source q |
| TranslationPipeline.GatherStopsAtError | backend/translation_service/services/translation_pipeline.py:167-168 | the first failing translation decides the error |
| TranslationPipeline.MergedResultsSpec | backend/translation_service/services/translation_pipeline.py:166-203 | there is one result per key; skip results come first; then all queued keys succeed, with is_new_translation = not has_translation, or all fail with the same message |
| TranslationPipeline.ResultIdsPermutation | backend/translation_service/services/translation_pipeline.py:133-215 | the results' key ids are the keys' ids, each as often, before and after the upload patch |
| TranslationPipeline.ApplyTranslations | backend/translation_service/services/translation_pipeline.py:170-193 | the success loop returns one success result per queued key, updates each queued key's translations in place, and leaves every other key unchanged |
| TranslationPipeline.ApplyTranslationSpec | backend/translation_service/services/translation_pipeline.py:183-193 | after the update, the target lookup finds the new text; an existing entry changes only its text and key id; otherwise an entry is appended, not reviewed, fuzzy, with words = one more than the number of spaces |
| TranslationPipeline.ApplyKeepsPayload | backend/translation_service/services/translation_pipeline.py:183-193 | a key whose upload payload could be built before the update still has one after it |
| TranslationPipeline.FirstWithKey | backend/translation_service/services/translation_pipeline.py:210-211 | the first result with a key id, or None when no result has it |
| TranslationPipeline.PatchUploadStatus | backend/translation_service/services/translation_pipeline.py:209-215 | the nested loop with `break` computes the patch of every upload result in turn |
| TranslationPipeline.PatchOneSpec | backend/translation_service/services/translation_pipeline.py:211-215 | a failed upload marks only the first result with its key id as an error, with the upload's message; a successful upload changes nothing |
| TranslationPipeline.PatchAllSpec | backend/translation_service/services/translation_pipeline.py:209-215 | patching keeps every result's id, name and details; a status can only become error, and then an upload of that key failed with that message; without failed uploads nothing changes |
| TranslationPipeline.TranslateKeys | backend/translation_service/services/translation_pipeline.py:124-203 | classification, translation and the in-place update give the merged results and the updated keys |
| TranslationPipeline.ProcessTranslations | backend/translation_service/services/translation_pipeline.py:112-216 | the results are the merged results, patched with the upload of the updated keys; on success each queued key holds its translation, and no other key changes |
| TranslationService.CheckTranslationQuality | backend/translation_service/services/translation_service.py:70-79 | the record echoes source, reference and candidate unchanged under "translations" |
| TranslationService.QualityScoreSpec | backend/translation_service/services/translation_service.py:70 | bleu_score is the BLEU score with the reference first: 0.0 for blank input, the scorer's value otherwise, and independent of the source text |
| TranslationService.GlossaryContextEmptyIff | backend/translation_service/services/translation_service.py:87-90 | the glossary context is "" exactly when there are no terms |
| TranslationService.GlossaryContextLines | backend/translation_service/services/translation_service.py:87-90 | when fields hold no line break, splitting the context on line breaks gives one "- term: translation" line per term, in input order |
| Views.Count | backend/translation_service/views.py:152-156 | a filtered count never exceeds the number of results |
| Views.SummarizeSpec | backend/translation_service/views.py:150-157 | total_processed is the number of results and details the results; successful + failed + skipped = total_processed; new + updated = successful |
| Views.ViewGuard | backend/translation_service/views.py:133-148 | a missing or empty target language gives 400 with "Target language is required", whatever the pipeline would return; otherwise 200 with the summary for the source language (default "en") and force flag (default false) |
| Views.SummaryOfMerged | backend/translation_service/views.py:150-154 | before the upload patch, skipped counts the skipped keys, and the queued keys are counted all as successful or all as failed |
| Views.SummaryAfterUpload | backend/translation_service/views.py:150-157 | the upload patch keeps the total, and without failed uploads it keeps the whole summary |

## Left out

- NLTK's `sentence_bleu` is a function parameter: its n-gram precision and brevity penalty are a foreign library with floating-point arithmetic. The perfect-match and no-match checks of the tests depend on it.
- Finding or downloading the NLTK tokenizer data is the boolean parameter `dataReady`.
- The HTTP and SDK calls stay as oracles or are left out:
  - `translate_with_ai` (both versions), including its prompt text and the 'Italian' naming of `it`, is an oracle that returns the stripped reply or the exception text.
  - `requests.put` is an oracle that returns a response or an exception text.
  - The `fine_tune_translation` request, `get_all_keys`, `get_key_translations`, `get_lokalise_glossary` and `upload_file` are not part of this model.
- `asyncio.gather` and the `aiohttp` session are modelled as one sequential pass. When several translations fail, the reported error is the first in queue order, not the first in time.
- `views.check_quality` calls methods the services do not define. `views.upload_file` only forwards to the serializer and `upload_file`. Both are left out.
- The code after the `return` in `backend/translation_service/services/lokalise_service.py:205-223` is unreachable and left out.
- File and library plumbing are not part of this model:
  - the glossary file load in the pipeline's constructor;
  - pandas `read_excel`, `json.dump`, directory creation, the debug prints and `main()` of the converter;
  - Django settings, where `SUPPORTING_LANGUAGES` is a parameter.
- Validators.ValidateFileSize: the size message formats the size in MiB as a float. The error keeps the size and the limit but does not render the text.
- PyStr.Lower: lower-casing maps ASCII letters only. Python's full Unicode case mapping is not modelled.
- The `int(key['key_id'])` conversion is the identity on `KeyId = nat`. If Lokalise returned string ids, the results would keep the string while the upload results carry the int, and the patch loop's comparison would never match. The model does not capture this mismatch.
- A translation without `language_iso` makes the source's `next(...)` scan raise `KeyError` before it reaches a match. The model's lookup passes over such an entry instead. The upload still reports the missing member as that key's error.
- An exception raised inside the success loop after some results were appended is not modelled. The loop cannot raise once key ids are integers.
- The `'Upload failed'` default of `upload_result.get('error', ...)` is unreachable, because every failed upload result carries an error. The model keeps the upload's message.
- The translation dicts inside a key are values replaced by index. The model does not capture aliasing between those dicts and other references.
- ProcessTranslations requires distinct key objects. `get_all_keys` builds a fresh dict for every key.
- Views.ProcessTranslationsView: request values arrive typed, with `None` for a member that was not sent. An explicit JSON `null` for `source_language` therefore counts as missing and gets "en", where the source passes `None` on. A non-boolean `force_translate` such as the string "false" is not modelled; the source tests it by truthiness.
- Serializers.Validate: DRF's parsing of the raw request (the boolean spellings of `BooleanField`, the list and JSON forms of `ListField`, the rejection of surrogate characters by `CharField`) is not modelled. Values arrive as booleans, lists and strings; `CharField`'s blank check, trimming and NUL check are modelled.
- The sheet's columns are its header names as pandas returns them. `read_excel` already renames identical raw headers (`a`, `a.1`), so only names that become equal after cleaning collide. The exception text is that of pandas 2.x for the truth value of a Series.
- Glossary term dicts in `fine_tune_translation` are records with `term` and `translation`. The `KeyError` for a missing member is not modelled.
- The Nuxt frontend and its Pinia stores are UI and HTTP state, and are left out.

# Moving Laravel translation strings to keys, in Dafny

`move-translation-strings-to-keys.py` is a migration tool for a Laravel
project. It finds `__('Some text')` calls in PHP and Blade source files. It
derives a short key from each text (`some_text`), asks the user to accept or
override that key, and rewrites the call to `__("messages.some_text")`. The
namespace `messages` is the catalog file's name without its extension. At the
end it merges every new `key => text` pair into the PHP catalog file
(`return [ "key" => "value", ... ];`), and entries already in the catalog win
over new ones.

This project models that tool and proves what it promises:

- `Strings`: the Python string primitives the tool relies on. These are
  `lower()` on ASCII text, `endswith`, `str.replace` (leftmost and
  non-overlapping, with Python's rule for an empty pattern), and decimal
  rendering of the collision counter.
- `KeyGen`: `generate_key` and the "already a key" test (`\w\.\w`). The tag
  stripper `<[^>]+>` and the `\w+` tokenizer are written out as scanners.
- `Catalog`: the catalog as an insertion-ordered dictionary (`seq<Entry>`
  with distinct keys, plus the `map` it denotes). It covers `dict(pairs)`,
  `dict.update`, the `{**new, **existing}` merge, value escaping, and the
  file `update_translation_file` writes, produced by a loop.
- `Collision`: the counter loop that makes a derived key unique (`base`,
  `base_1`, `base_2`, …), and the prompt loop that reads the user's key
  until it is free.
- `Extraction`: `process_file` as a class `Migration`. Its fields are the
  state the tool threads through files: `used_keys`, and the answers the user
  has not yet typed. Its methods mint a key, handle one `__()` match and
  handle a whole file.
- `Run`: `replace_translations`. It covers the namespace from the catalog
  path, which files are processed, the shared key set, and the single catalog
  write at the end.

The loop of `process_file` checks a candidate key against both `used_keys`
and `new_entries`. Every new key is added to `used_keys` at once (line 77),
so the model checks `used_keys` alone. Each stateful operation is stated
against a function: `Mint`, `Step` and `Loop` for `process_file`, and
`FileRun`, `RunFiles` and `Replace` for `replace_translations`. Lemmas then
prove the promised properties of those functions.

Outside effects become values. A source file is its path, its name, its text
and the `__()` matches found in it. The catalog on disk is the list of
`"key" => "value"` pairs found in it. The user's answers are a list of
already-stripped lines. What a run writes is returned as an `Outcome`.

## Model

| member | source | states |
|---|---|---|
| Strings.LowerMeaning | move-translation-strings-to-keys.py:8 | `lower()` leaves no upper-case letter, keeps every character in its place and keeps whether it is a word character, changes only upper-case letters, and changes nothing a second time |
| Strings.ReplaceAllAbsent | move-translation-strings-to-keys.py:88 | replacing a non-empty pattern that does not occur leaves the text unchanged |
| Strings.ReplaceCharConcat | move-translation-strings-to-keys.py:30 | replacing a single character distributes over concatenation |
| Strings.Decimal | move-translation-strings-to-keys.py:65 | the counter's decimal text is non-empty and made of digits |
| Strings.ParseDecimalOfDecimal | move-translation-strings-to-keys.py:65 | reading the counter's decimal text back gives the counter |
| Strings.DecimalInjective | move-translation-strings-to-keys.py:65 | distinct counters give distinct decimal texts |
| KeyGen.StripTagsLeavesNoTag | move-translation-strings-to-keys.py:7 | after `re.sub(r'<[^>]+>', '')` no `<…>` tag with a non-empty body remains anywhere in the text |
| KeyGen.StripTagsNoTag | move-translation-strings-to-keys.py:7 | a text without such a tag is left unchanged |
| KeyGen.StripTagsIdempotent | move-translation-strings-to-keys.py:7 | stripping tags twice is the same as stripping once |
| KeyGen.StripTags | move-translation-strings-to-keys.py:7 | `re.sub(r'<[^>]+>', '')` never lengthens the text and keeps only characters that occur in it |
| KeyGen.StripTagsDeletesOnly | move-translation-strings-to-keys.py:7 | what `re.sub` leaves is the text with characters deleted, every kept character in its original order |
| KeyGen.Words | move-translation-strings-to-keys.py:8 | every token of `re.findall(r'\w+')` is a non-empty run of word characters |
| KeyGen.WordsChars | move-translation-strings-to-keys.py:8 | every character of a token comes from the text |
| KeyGen.WordsSplit | move-translation-strings-to-keys.py:8 | a non-word character splits the token list: the tokens of `a c b` are those of `a` followed by those of `b` |
| KeyGen.WordsOfSpaced | move-translation-strings-to-keys.py:8 | tokenizing words separated by single spaces gives the words back |
| KeyGen.GenerateKey | move-translation-strings-to-keys.py:5-10 | a generated key holds only lower-case letters, digits and `_` |
| KeyGen.GenerateKeyEmpty | move-translation-strings-to-keys.py:5-10 | the key is empty exactly when the text without tags has no word character |
| KeyGen.GenerateKeyIdempotent | move-translation-strings-to-keys.py:5-10 | deriving a key from a key gives the same key |
| KeyGen.GenerateKeyOfSpaced | move-translation-strings-to-keys.py:8-9 | for plain words separated by spaces the key is the first four words, lower-cased and joined with `_` |
| KeyGen.GenerateKeyIgnoresWrappingTags | move-translation-strings-to-keys.py:7-9 | a text wrapped in an opening and a closing tag gets the same key as the bare text |
| KeyGen.IsKeyReferenceMeans | move-translation-strings-to-keys.py:55 | the skip test holds exactly when some word character, a dot and a word character stand side by side |
| KeyGen.RewrittenLiteralIsSkipped | move-translation-strings-to-keys.py:55-57 | a rewritten literal `ns.key` is skipped on a later run when the namespace ends and the key starts with a word character |
| KeyGen.TrailingDotNotKey | move-translation-strings-to-keys.py:55 | appending a lone dot to the namespace does not make it look like a key |
| KeyGen.EmptyKeyRewriteNotSkipped | move-translation-strings-to-keys.py:55-57 | a text with no word character gets the empty key, and its rewrite `ns.` is not skipped on a later run |
| Catalog.ToMapKeys | move-translation-strings-to-keys.py:18 | the dictionary's keys are exactly the keys of its pairs |
| Catalog.ToMapAt | move-translation-strings-to-keys.py:18 | with distinct keys, each entry's key maps to that entry's value |
| Catalog.Put | move-translation-strings-to-keys.py:78 | `d[k] = v` keeps keys distinct, updates the mapping at `k` only, keeps the order of the existing keys, and appends a new key at the end |
| Catalog.UpdateMap | move-translation-strings-to-keys.py:108 | `d.update(pairs)` denotes the old mapping overridden by the pairs |
| Catalog.Update | move-translation-strings-to-keys.py:108 | `d.update(pairs)` keeps the keys distinct |
| Catalog.UpdateKeepsOrder | move-translation-strings-to-keys.py:108 | `update` keeps the existing keys at their positions |
| Catalog.UpdateFresh | move-translation-strings-to-keys.py:108 | updating with keys that are all new appends them in their order |
| Catalog.FromPairs | move-translation-strings-to-keys.py:18 | `dict(pairs)` has distinct keys |
| Catalog.FromPairsMap | move-translation-strings-to-keys.py:18 | `dict(pairs)` has the keys of the pairs and maps each key to its last pair's value |
| Catalog.DictLastPairWins | move-translation-strings-to-keys.py:18 | the value of a key in `dict(pairs)` is the value of the last pair with that key |
| Catalog.MergePrecedence | move-translation-strings-to-keys.py:24 | `{**new, **existing}` has the union of the keys, existing values win, new values stand for absent keys, and new keys come first in their order |
| Catalog.EscapeCons | move-translation-strings-to-keys.py:30 | the two chained replacements escape the value one character at a time: a backslash is doubled, a quote gets a backslash |
| Catalog.EscapeLength | move-translation-strings-to-keys.py:30 | escaping adds one character per backslash and per double quote |
| Catalog.UnescapeEscape | move-translation-strings-to-keys.py:30 | escaping loses nothing: reading the escapes back gives the original value |
| Catalog.RenderEntry | move-translation-strings-to-keys.py:27-32 | the catalog file is the header, then one line per entry in dictionary order, then the footer |
| Catalog.WriteCatalog | move-translation-strings-to-keys.py:26-32 | the writing loop produces exactly the rendered catalog of the merged dictionary |
| Catalog.UpdateTranslationFile | move-translation-strings-to-keys.py:21-32 | the file written is the rendering of the new entries merged under the entries read from the catalog |
| Collision.CandidateInjective | move-translation-strings-to-keys.py:60-66 | the counter loop never tries the same key twice |
| Collision.TriedHas | move-translation-strings-to-keys.py:60-66 | after `n` steps the loop has tried exactly the candidates `0 … n-1` |
| Collision.FirstFreeUnique | move-translation-strings-to-keys.py:60-66 | the key the counter loop settles on is determined by the base and the keys in use |
| Collision.FirstFreeKey | move-translation-strings-to-keys.py:60-66 | the key the counter loop settles on is the first candidate that is not in use, all earlier candidates being in use |
| Collision.DefaultKey | move-translation-strings-to-keys.py:60-66 | the loop ends with a key not in use. That key is the first free one among `base`, `base_1`, … (`FirstFreeKey`), it is the base itself when the base is free, and it is reached within as many steps as there are keys in use |
| Collision.Settle | move-translation-strings-to-keys.py:72-76 | the re-prompt loop ends with a free key, which is the default or a non-blank answer the loop itself read, at a position from the current one up to (not including) the position it returns |
| Collision.Prompted | move-translation-strings-to-keys.py:69-76 | the prompts always end with a free key, which is the default or a non-blank answer among those they read, after at least one answer is read |
| Collision.BlankTakesDefault | move-translation-strings-to-keys.py:69-70 | a blank first answer takes the default key at once |
| Collision.FreeAnswerAccepted | move-translation-strings-to-keys.py:69-72 | a first answer that is free is the key |
| Collision.TakenAnswerRejected | move-translation-strings-to-keys.py:72-74 | an answer already in use is never the key, and the user is asked again |
| Collision.ResolveKey | move-translation-strings-to-keys.py:69-76 | the prompt loop computes the prompted key and the number of answers it reads, as `Prompted` describes |
| Extraction.PendingMembers | move-translation-strings-to-keys.py:48-57 | a match gets a key exactly when it is one of the file's matches and its text does not already look like a key |
| Extraction.RewriteAbsent | move-translation-strings-to-keys.py:88 | `content.replace(full_match, new_call)` of a call that does not occur changes nothing, so rewriting leaves alone a text in which none of its calls occurs |
| Extraction.Mint | move-translation-strings-to-keys.py:60-77 | the key minted for a text is not in use; it is the first free key derived from the text or a non-blank answer the user typed; at least one answer is read when there is one, and only answers from the front are read |
| Extraction.NothingPending | move-translation-strings-to-keys.py:91-94 | a file whose calls all look like keys gets no entry, reads no answer and keeps its text, so it is not written back |
| Extraction.StepProgress | move-translation-strings-to-keys.py:48-89 | one turn of the loop keeps the per-file invariant, with the call added to the handled ones exactly when it is not skipped |
| Extraction.LoopProgress | move-translation-strings-to-keys.py:45-89 | after the loop the new entries have distinct keys not previously in use, hold the texts of the handled calls in order, and were each chosen as the prompts allow. The text has each handled call rewritten in order, the keys in use grew by exactly the new keys, and answers were only consumed |
| Extraction.LoopUpdates | move-translation-strings-to-keys.py:89-92 | the file is updated exactly when some call was not skipped |
| Extraction.Migration.constructor | move-translation-strings-to-keys.py:101-102 | the keys in use start as the keys of the catalog |
| Extraction.Migration.MintKey | move-translation-strings-to-keys.py:60-77 | the key and the answers left are those `Mint` gives, and the key is added to the keys in use |
| Extraction.Migration.ProcessMatch | move-translation-strings-to-keys.py:48-89 | a match is skipped exactly when its text looks like a key, and a skipped match changes nothing. Otherwise the entries, the text, the keys in use and the answers left are what one turn of the loop (`Step`) gives: a fresh key, its entry appended, and the call rewritten |
| Extraction.Migration.ProcessFile | move-translation-strings-to-keys.py:34-96 | a file without matches gives nothing and changes nothing. Otherwise the result, the keys in use and the answers left are what the loop over the matches (`Loop`) gives, so `LoopProgress` applies to them. The file is updated exactly when some call was not skipped, and no answer is read when every call is skipped |
| Extraction.ProgressEntries | move-translation-strings-to-keys.py:60-78 | each new entry of a file has a key unused before and distinct from earlier new keys. Its value is the text of its call, and its key is the first free derived key or a non-blank answer the user typed |
| Extraction.RepeatedCallMintsTwice | move-translation-strings-to-keys.py:60-89 | the same call written twice in a file gets two different keys and two entries with the same text |
| Run.Basename | move-translation-strings-to-keys.py:100 | the base name has no `/`, ends the path, and is preceded by a `/` unless it is the whole path |
| Run.LastDot | move-translation-strings-to-keys.py:100 | the position found is the last `.` of the name, or there is none |
| Run.RootDropsExtension | move-translation-strings-to-keys.py:100 | `splitext` drops the extension of `stem.ext`, so the namespace of `lang/en/messages.php` is `messages` |
| Run.RootWithoutDot | move-translation-strings-to-keys.py:100 | a name without a dot is its own root |
| Run.SourceFileIsPhp | move-translation-strings-to-keys.py:112 | a file is processed exactly when its name ends with `.php` (a Blade template always does) |
| Run.PhpFilesMembers | move-translation-strings-to-keys.py:110-113 | the files processed under a directory are exactly its `.php` files |
| Run.FileRunProgress | move-translation-strings-to-keys.py:106 | what `process_file` gives one file: new entries with distinct keys not in use, holding the texts of its calls that get a key, in order; the text with those calls rewritten; the keys in use grown by exactly the new keys |
| Run.ProcessOne | move-translation-strings-to-keys.py:105-116 | one file's new entries, its new text when it was updated, the keys in use and the answers left are what `process_file` gives it (`FileRun`) |
| Run.ProcessFiles | move-translation-strings-to-keys.py:110-116 | the loop over the selected files gives the files written back, `all_new_entries`, the keys in use and the answers left that `RunFiles` describes |
| Run.RunKeys | move-translation-strings-to-keys.py:102-116 | across the files of a run the new entries have distinct keys that were not in use, the keys in use grow by exactly those keys, answers are only consumed, and some file is written back exactly when there is a new entry |
| Run.UpdateNeverOverwrites | move-translation-strings-to-keys.py:108 | `all_new_entries.update(new_entries)` never overwrites an entry: it appends the file's new entries |
| Run.RunTexts | move-translation-strings-to-keys.py:105-116 | the new entries of a run hold the texts of the calls that get a key, file after file and call after call |
| Run.RunWritten | move-translation-strings-to-keys.py:105-116 | the files written back are exactly the files with a call that gets a key, in order, each with those calls rewritten to keys the run minted |
| Run.CatalogAfterRun | move-translation-strings-to-keys.py:121-123 | new keys never clash with the catalog, so the catalog is written with the new entries first, in minting order, followed by the old entries unchanged |
| Run.ReplaceTranslations | move-translation-strings-to-keys.py:98-126 | the outcome is the run `Replace` describes: nothing for a path that is neither a file nor a directory; otherwise new entries with distinct keys none of which was in the catalog, and some file written back exactly when there is a new entry |
| Run.ReplaceMeaning | move-translation-strings-to-keys.py:98-126 | the new entries are the texts of the calls that get a key, in order, under distinct keys none of which was in the catalog. The files written back are exactly those with such a call, each rewritten to minted keys. The catalog is written exactly when there is a new entry, and it lists the new entries followed by the old ones |

## Left out

- File reading and writing, `os.path.exists`, `isfile` and `isdir` are left out. The contents of the files and the kind of the input path are inputs, and what a run writes is its result.
- The two regular expressions that find `__()` calls (line 39) and catalog pairs (line 17) are not modelled. Their matches are inputs: the full match, the literal's text and the extra arguments of each call, and the `(key, value)` pairs of the catalog.
- Unicode is left out. `\w` and `lower()` are modelled on ASCII: word characters are `a-z`, `A-Z`, `0-9` and `_`.
- `strip()` on the answers is left out: the answers are given already stripped.
- End of input is modelled as blank. When the user stops answering, each further prompt reads as a blank answer, which accepts the default key. Python would raise `EOFError` instead.
- The `print` messages are not modelled. They do not affect the result.
- The order of `os.walk` is an input: a directory is the list of files it yields, in that order.
- The catalog is read twice (lines 101 and 22). The model gives both reads the same pairs. If a run rewrites the catalog file itself, because it is a `.php` file under the input directory, the second read is not modelled.
- The command-line entry point (lines 128-136) is not modelled.
- Extraction.Migration.ProcessFile: the code gives the same call, written twice in a file, two keys. The first `replace` rewrites both occurrences, so the second key is written to the catalog but used nowhere. The model follows the code (Extraction.RepeatedCallMintsTwice) but does not prove that the second key is absent from the new text (Extraction.RewriteAbsent covers only calls that no longer occur). A description of this tool that promises a single entry for repeated calls disagrees with the code here.
- KeyGen.GenerateKeyIdempotent and KeyGen.RewrittenLiteralIsSkipped state re-run safety only for keys that start with a word character. For a text with no word character the key is empty, and the rewritten call `ns.` is processed again on a later run (KeyGen.EmptyKeyRewriteNotSkipped).

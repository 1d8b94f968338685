# cakephp-sluggable in Dafny

A model of the slug logic of the CakePHP `Sluggable` plugin, with proofs.

- `Slug::generate(pattern, data, replacement)` turns a pattern and a record into a URL slug in three steps:
  1. Interpolate the record's fields into `:name` placeholders (`Text::insert`).
  2. Normalise the text into runs of letters and digits joined by the replacement character (`Inflector::slug`).
  3. Lower-case the result (`strtolower`).
- `SluggableBehavior` applies this when an entity is saved:
  - Its options are `pattern`, `field`, `replacement` and `overwrite`. The defaults are `:name`, `slug`, `-` and off.
  - `_generateSlug` keeps an existing truthy slug unless `overwrite` is on. Otherwise it generates a new one.
  - `afterSave` writes the slug into the configured field. When the slug differs from the field's previous value, it saves the entity again, which runs `afterSave` once more.

Modules:

- `CharClass` (char_class.dfy): ASCII character classes, the length of a leading run, and `strtolower`.
- `Inflector` (inflector.dfy): the normaliser. Tokens are the maximal runs of letters and digits, joined by the separator.
- `Text` (text.dfy): the interpolator. A placeholder is `:` followed by a maximal run of letters, digits and `_`.
- `Slug` (slug.dfy): `Generate` and its properties.
- `Chain` (chain.dfy): a step run again and again while it asks to be, for any state; `SluggableBehavior` instantiates it with one run of `afterSave` on the entity.
- `SluggableBehavior` (sluggable_behavior.dfy): the configuration, the overwrite policy, and the class `Behavior`. The class holds the entity being saved and a count of the extra saves that `afterSave` requested.
- `SlugTest` (slug_test.dfy) and `SluggableBehaviorTest` (sluggable_behavior_test.dfy): the test cases of the repository, stated as lemmas and methods.

`Inflector::slug` and `Text::insert` belong to CakePHP, and their source is not part of this model. They are defined here by the behaviour that the plugin's doc comments and tests show:
- runs of characters that are not slug-friendly become one separator;
- no separator is left at either end;
- `:field` is replaced by the field's value.

The extra save in `afterSave` runs `afterSave` again, and that run can ask for yet another save. `SluggableBehavior.SlugChain` is the sequence of entities these runs write, one after the other. `Behavior.Save(n)` requires that the run on the `n`-th entity of that chain requests no save. It then stops after `SluggableBehavior.ExtraSaves` extra saves, the first position of the chain whose run requests none, and leaves the entity that this run wrote. These lemmas say how long the chain is:
- `SluggableBehavior.SluggingIsStable` and `SluggableBehavior.StableSaveSettles`: for every pattern that does not name the slug field, `n = 1` suffices, so there is at most one extra save.
- `SluggableBehavior.KeptSlugSettles`: with `overwrite` off, once the slug written is truthy the next run keeps it, whatever the pattern reads.
- `SluggableBehavior.LonePlaceholderSettles`: a pattern that is the slug field's placeholder alone, such as `:slug`, stops after at most one extra save.
- `SluggableBehavior.FalsySlugTakesTwoExtraSaves`: with `overwrite` off, a pattern that reads the slug field can need two extra saves. With pattern `:slug-:title`, an empty slug and the title `"0"`, the first run writes `"0"`, which is falsy. So the next run writes `"0-0"`, and only the run after that keeps it.
- `SluggableBehavior.SelfReferencingPatternNeverSettles`: with `overwrite` on, the chain can be endless. Take a pattern `:field-x`, where `x` is a lower-case letter or digit, and a field that already holds a non-empty slug of lower-case words joined by `-`. Every run on the chain appends `-x` and asks for another save, so no bound `n` meets the precondition of `Behavior.Save`.

## Model

| member | source | states |
|---|---|---|
| `CharClass.Lower` | src/Utility/Slug.php:25 | lower-casing keeps the length, leaves no capital letter, keeps every non-capital character, and turns each capital into the matching lower-case letter |
| `CharClass.LowerOfLower` | src/Utility/Slug.php:25 | a string without capitals is unchanged by lower-casing |
| `CharClass.AlnumsOfLower` | src/Utility/Slug.php:25 | lower-casing commutes with keeping only the letters and digits |
| `Inflector.Slug` | src/Utility/Slug.php:24 | none of its own: specified by `Inflector.JoinShape`, `Inflector.TokensOfJoin`, `Inflector.SlugKeepsAlphanumerics` and `Inflector.SlugIdempotent` |
| `Inflector.Tokens` | src/Utility/Slug.php:24 | every token of the normaliser is a non-empty run of letters and digits |
| `Inflector.TokensKeepAlphanumerics` | src/Utility/Slug.php:24 | the tokens, put end to end, are exactly the letters and digits of the input, in order |
| `Inflector.TokensSkipSeparators` | src/Utility/Slug.php:14 | characters that are not slug-friendly produce no token |
| `Inflector.SlugOfTwoWords` | src/Utility/Slug.php:14 | two words with any run of other characters between them, and optionally after them, come out joined by exactly one separator |
| `Inflector.TokensOfJoin` | src/Utility/Slug.php:24 | splitting tokens joined by a non-alphanumeric separator gives the same tokens back |
| `Inflector.JoinShape` | src/Utility/Slug.php:24 | a normalised string has only letters, digits and the separator, starts and ends with a letter or digit, and never has two separators in a row |
| `Inflector.JoinKeepsAlphanumerics` | src/Utility/Slug.php:24 | joining adds no letters or digits and loses none |
| `Inflector.LowerJoin` | src/Utility/Slug.php:24-25 | lower-casing joined tokens is joining the lower-cased tokens |
| `Inflector.JoinAppend` | src/Utility/Slug.php:24 | joining two lists is joining each and putting one separator between them |
| `Inflector.SlugKeepsAlphanumerics` | src/Utility/Slug.php:24 | normalising keeps exactly the letters and digits of its input |
| `Inflector.SlugIdempotent` | src/Utility/Slug.php:24 | normalising a normalised string changes nothing |
| `Text.Insert` | src/Utility/Slug.php:23 | none of its own: specified by `Text.InsertPlaceholder`, `Text.InsertConcat`, `Text.InsertLiteral` and `Text.InsertIgnoresUnusedField` |
| `Text.PlaceholderLength` | src/Utility/Slug.php:23 | a placeholder's name is the longest run of name characters after the colon |
| `Text.Placeholders` | src/Utility/Slug.php:23 | every placeholder a pattern names is a non-empty run of name characters |
| `Text.InsertLiteral` | src/Utility/Slug.php:23 | a pattern that names none of the record's fields is interpolated to itself |
| `Text.InsertEmpty` | src/Utility/Slug.php:17 | with the default empty record the pattern is used as it is |
| `Text.InsertIgnoresUnusedField` | src/Utility/Slug.php:23 | a field the pattern does not name has no effect on the interpolated text |
| `Text.InsertConcat` | src/Utility/Slug.php:23 | interpolation works piece by piece when the cut does not split a placeholder name |
| `Text.InsertPlaceholder` | src/Utility/Slug.php:23 | a lone placeholder becomes its field's value |
| `Text.InsertAfterCharacter` | src/Utility/Slug.php:23 | a character that cannot start a name is kept, and the placeholder after it becomes its value |
| `Text.InsertTwoPlaceholders` | src/Utility/Slug.php:23 | two placeholders with one other character between them become their two values around that character |
| `Text.PlaceholdersOfPlaceholder` | src/Utility/Slug.php:23 | a lone placeholder names exactly its field |
| `Slug.Generate` | src/Utility/Slug.php:17-28 | the slug has no capital letter; the lemmas below state the rest |
| `Slug.GenerateIsSlug` | src/Utility/Slug.php:17-28 | every slug is lower-case letters and digits separated by single replacement characters, with none at either end |
| `Slug.GenerateKeepsAlphanumerics` | src/Utility/Slug.php:22-25 | the slug holds exactly the letters and digits of the interpolated text, lower-cased and in order |
| `Slug.GenerateIdempotent` | src/Utility/Slug.php:17-28 | a slug, used as a plain pattern, slugs to itself |
| `Slug.GenerateLiteral` | src/Utility/Slug.php:12 | a pattern with no placeholder naming a field of the record is slugged as literal text |
| `Slug.GenerateIgnoresUnusedField` | src/Utility/Slug.php:23 | fields the pattern does not name do not affect the slug |
| `Slug.GeneratePlaceholder` | src/Utility/Slug.php:23-25 | a pattern that is one placeholder gives the slug of that field's value |
| `Slug.GenerateWord` | src/Utility/Slug.php:17-28 | a pattern that interpolates to one lower-case word of letters and digits is slugged to that word |
| `SlugTest.BasicSlugExamples` | tests/TestCase/Utility/SlugTest.php:13-24 | `slug me` and `SLUG(!@#(ME` give `slug-me`, and the long sentence gives `a-really-long-slug-that-i-just-made` |
| `SlugTest.PatternedSlugExamples` | tests/TestCase/Utility/SlugTest.php:26-54 | `:id-:name` gives `123-abc` and `:description` gives `hello-world`, for the array and the entity alike |
| `SlugTest.ReplacementExample` | tests/TestCase/Utility/SlugTest.php:56-60 | replacement `.` gives `dr.who` |
| `Chain.Stops` | src/Model/Behavior/SluggableBehavior.php:63-64 | the number of runs again is at most the known bound |
| `Chain.IterateLast` | src/Model/Behavior/SluggableBehavior.php:63-64 | one run more is one run from the state reached |
| `Chain.AgainBeforeStop` | src/Model/Behavior/SluggableBehavior.php:63-64 | every run before the stop asks to run again |
| `Chain.NotAgainAtStop` | src/Model/Behavior/SluggableBehavior.php:63-64 | when the run at the bound does not ask again, neither does the run at the stop |
| `Chain.LastIsStepAtStop` | src/Model/Behavior/SluggableBehavior.php:63-64 | the state the runs leave is the one written by the run at the stop |
| `SluggableBehavior.Configure` | src/Model/Behavior/SluggableBehavior.php:24-29 | each option is the one given, else the default `:name`, `slug`, `-`, off |
| `SluggableBehavior.Get` | src/Model/Behavior/SluggableBehavior.php:59 | none of its own: an absent field reads as null |
| `SluggableBehavior.IsTruthy` | src/Model/Behavior/SluggableBehavior.php:40 | none of its own: null, the empty string and `"0"` are false; used by `SluggableBehavior.ExistingSlugIsKept` |
| `SluggableBehavior.GenerateSlug` | src/Model/Behavior/SluggableBehavior.php:36-47 | none of its own: specified by `SluggableBehavior.ExistingSlugIsKept` and `SluggableBehavior.SlugIsRegenerated` |
| `SluggableBehavior.Differs` | src/Model/Behavior/SluggableBehavior.php:63 | none of its own: null differs from a string only when the string is non-empty; used by `SluggableBehavior.ResaveOnlyOnChange` |
| `SluggableBehavior.ResaveRequested` | src/Model/Behavior/SluggableBehavior.php:59-65 | none of its own: specified by `SluggableBehavior.ResaveOnlyOnChange` |
| `SluggableBehavior.Slugged` | src/Model/Behavior/SluggableBehavior.php:59-60 | `afterSave` writes the generated slug into the configured field, adding it when absent; every other field keeps its value |
| `SluggableBehavior.SlugChain` | src/Model/Behavior/SluggableBehavior.php:59-64 | none of its own: specified by `SluggableBehavior.SlugChainWritesOnlySlug` and `SluggableBehavior.ExtraSavesIsFirstStop` |
| `SluggableBehavior.SlugChainWritesOnlySlug` | src/Model/Behavior/SluggableBehavior.php:59-64 | however many times `afterSave` runs, only the slug field is added or written; every other field keeps its value |
| `SluggableBehavior.ExtraSaves` | src/Model/Behavior/SluggableBehavior.php:63-64 | the number of extra saves is at most the bound the caller knows |
| `SluggableBehavior.ExtraSavesIsFirstStop` | src/Model/Behavior/SluggableBehavior.php:63-64 | the number of extra saves is the first position of the chain whose run requests no save: every run before it requests one |
| `SluggableBehavior.Settled` | src/Model/Behavior/SluggableBehavior.php:55-67 | none of its own: specified by `SluggableBehavior.SettledIsChainEnd` |
| `SluggableBehavior.SettledIsChainEnd` | src/Model/Behavior/SluggableBehavior.php:55-67 | the entity a save leaves is the one that the run at the first stop of the chain writes |
| `SluggableBehavior.SaveStep` | src/Model/Behavior/SluggableBehavior.php:59-65 | a save stops at the first run when that run requests no save, and otherwise goes on from the entity it wrote with a bound one smaller |
| `SluggableBehavior.SettlesAfterOne` | src/Model/Behavior/SluggableBehavior.php:55-67 | when the run after the first requests no save, there is one extra save exactly when the first run requested it, and the entity is slugged once |
| `SluggableBehavior.TwoPlaceholdersSlugged` | src/Model/Behavior/SluggableBehavior.php:40-46 | with no truthy slug, the pattern `:field-:other` writes the slug of the two values joined by `-`, leaves `other` alone, and requests a save exactly when that changes the field |
| `SluggableBehavior.FalsySlugTakesTwoExtraSaves` | src/Model/Behavior/SluggableBehavior.php:40-64 | with overwrite off, pattern `:field-:other`, an empty slug and `other` holding `"0"`, the first and second runs request a save and the third does not, so the slug settles on `"0-0"` after two extra saves |
| `SluggableBehavior.ExistingSlugIsKept` | src/Model/Behavior/SluggableBehavior.php:40-41 | with overwrite off, a truthy slug is returned whatever the other fields hold, the entity is left as it was, and no extra save follows |
| `SluggableBehavior.SlugIsRegenerated` | src/Model/Behavior/SluggableBehavior.php:40-46 | otherwise the slug is generated from the pattern and the entity, for every configuration. With a non-alphanumeric separator it is well formed: lower-case letters and digits with single separators, none at either end. With overwrite on and a pattern that does not name the field, it does not depend on the old slug |
| `SluggableBehavior.ResaveOnlyOnChange` | src/Model/Behavior/SluggableBehavior.php:59-65 | an extra save is requested only when the field changed; when the field existed before, exactly when it changed |
| `SluggableBehavior.SluggingIsStable` | src/Model/Behavior/SluggableBehavior.php:36-65 | if the pattern does not name the slug field, slugging again gives the same slug, changes nothing and requests no save |
| `SluggableBehavior.StableSaveSettles` | src/Model/Behavior/SluggableBehavior.php:55-67 | if the pattern does not name the slug field, a save stops after at most one extra save, made exactly when the first run requests it, and leaves the entity slugged once |
| `SluggableBehavior.KeptSlugSettles` | src/Model/Behavior/SluggableBehavior.php:36-65 | with overwrite off, a truthy slug once written is kept by the next `afterSave`, which requests no save, whatever the pattern reads |
| `SluggableBehavior.LonePlaceholderSettles` | src/Model/Behavior/SluggableBehavior.php:36-65 | a pattern that is the slug field's own placeholder settles: the next `afterSave` writes the same slug and requests no save |
| `SluggableBehavior.SelfReferencingPatternNeverSettles` | src/Model/Behavior/SluggableBehavior.php:36-65 | with overwrite on, pattern `:field-x` (`x` a lower-case letter or digit) and a field holding a non-empty slug of lower-case words joined by `-`, the run on every entity of the chain requests another save |
| `SluggableBehavior.SelfReferencingRunAppends` | src/Model/Behavior/SluggableBehavior.php:40-64 | one such run requests a save and appends `-x` to the field |
| `SluggableBehavior.SelfReferencingStep` | src/Model/Behavior/SluggableBehavior.php:59-60 | after one such run the field again holds a non-empty slug of lower-case words joined by `-` |
| `SluggableBehavior.Behavior.constructor` | src/Model/Behavior/SluggableBehavior.php:24-29 | the behaviour starts from the merged configuration, the given entity and no extra saves |
| `SluggableBehavior.Behavior.AfterSave` | src/Model/Behavior/SluggableBehavior.php:55-67 | the entity becomes its slugged form, and an extra save is requested and counted exactly when the slug differs from the previous value |
| `SluggableBehavior.Behavior.Save` | src/Model/Behavior/SluggableBehavior.php:55-67 | when the run on the `n`-th entity of the chain requests no save, saving leaves the entity `Settled` describes and counts `ExtraSaves` extra saves |
| `SluggableBehaviorTest.SaveArticle` | tests/TestCase/Model/Behavior/SluggableBehaviorTest.php:49 | a save in the tests, whose patterns do not read the slug field, slugs the entity once and counts the extra save when the first run requests it |
| `SluggableBehaviorTest.AutoSlug` | tests/TestCase/Model/Behavior/SluggableBehaviorTest.php:39-56 | the first save gives `dr-who` with one extra save; after the title changes, the slug stays `dr-who` |
| `SluggableBehaviorTest.AutoSlugWithOverwrite` | tests/TestCase/Model/Behavior/SluggableBehaviorTest.php:58-77 | with overwrite on, the second save gives `you-ll-never-know` |
| `SluggableBehaviorTest.NonStandardField` | tests/TestCase/Model/Behavior/SluggableBehaviorTest.php:79-94 | field `foo` receives `dr-who` and `slug` stays unset |
| `SluggableBehaviorTest.NonStandardReplacement` | tests/TestCase/Model/Behavior/SluggableBehaviorTest.php:96-110 | replacement `.` gives `dr.who` |
| `SluggableBehaviorTest.FalsySlugChain` | src/Model/Behavior/SluggableBehavior.php:36-67 | saving with pattern `:slug-:title`, an empty slug and the title `"0"` ends with the slug `"0-0"` after two extra saves |

## Left out

- `findSlugged` and `findSluggedList` (src/Model/Behavior/SluggableBehavior.php:75-91) are not modelled. They only build queries with the ORM's query builder.
- The table's `save` call and event dispatch are not modelled. The save requested by `afterSave` is counted in `resaves`, and `Behavior.Save` runs `afterSave` again as the nested save would.
- `$entity->dirty()` is not modelled. The field has just been written by `set`, so the comparison with the previous value alone decides the extra save.
- The JSON round trip that turns an entity into an array (src/Utility/Slug.php:20) is not modelled. Every record is a map from field names to strings, so an entity and an array with the same fields give the same slug by construction.
- Non-string field values are not modelled. A value such as the integer id `123` is held as its decimal text.
- `SluggableBehavior.Differs`: uses plain string inequality. PHP's loose `!=` between two numeric strings compares them as numbers, so `"10" != "1e1"` and `"0" != "00"` are false; that case is left out. The "exactly when" clauses of `SluggableBehavior.ResaveOnlyOnChange`, `SluggableBehavior.TwoPlaceholdersSlugged` and `SluggableBehavior.Behavior.AfterSave` inherit this gap. For example, with the pattern `:slug:title`, an empty slug and the title `"0"`, the second run writes `"00"` into the entity, but the source does not save it, because `"0" != "00"` is false; the stored row keeps `"0"`. The model would count one more save there.
- `Inflector.Slug`: only ASCII letters and digits are slug-friendly. CakePHP's transliteration of other characters and its Unicode letter classes are left out.
- `Inflector.Slug`: the replacement is one character, as the doc comment at src/Utility/Slug.php:14 describes. A multi-character replacement string is left out.
- `Text.Insert`: a placeholder's name is the longest run of letters, digits and `_`, and a placeholder whose name is not a field of the record is kept as written. CakePHP instead replaces `:key` for each key of the record wherever it occurs, longer keys before their prefixes, even inside a longer name: `:names` with the record `{name: "x"}` gives `xs`, where the model keeps `:names`. A key such as `a-b` is matched by CakePHP as `:a-b` but is never a name here. CakePHP's `\:` escape keeps a placeholder from being replaced, and a final pass turns every `\:` into `:`, also inside the inserted values: `:k` with `{k: "a\:b"}` gives `a:b` there and `a\:b` here. When the pattern contains `?` and the record's first key is numeric, CakePHP switches to the positional `?` form. The `\:` escape, the `?` positional form and options such as `clean` are not modelled. Every test of the plugin is in the range where both readings agree. `Text.InsertLiteral`, `Text.InsertIgnoresUnusedField`, `Slug.GenerateLiteral`, `Slug.GenerateIgnoresUnusedField` and the condition "the pattern does not name the slug field" of `SluggableBehavior.SluggingIsStable` are stated for the model's reading. `Text.InsertLiteral` and `Slug.GenerateLiteral` also rely on a placeholder with no field being kept as written.
- `Inflector.Slug`: modelled only for a replacement that is not a letter or digit, and its specifying lemmas require one. CakePHP also strips a letter or digit replacement from both ends of the result, so `"xa b"` with replacement `x` gives `axb` there, where the model gives `xaxb`.
- `SluggableBehavior.Behavior.Save`: a save whose chain of extra saves never stops, such as the one `SluggableBehavior.SelfReferencingPatternNeverSettles` shows, meets the precondition for no `n`. The endless recursion of the PHP code in that case is not modelled.
- The tests' fixtures, database connection and table registry are not modelled.

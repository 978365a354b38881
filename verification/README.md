# b-comp helpers in Dafny

A model of the two helper classes of the b-comp component library,
`BComp\Helper\Str` and `BComp\Helper\Arr`, with proofs of what they compute.

- `Str` holds the string helpers. Its substring tests are `contains`,
  `startsWith` and `endsWith`. `is` does wildcard matching, `limit` and
  `words` truncate, and `parseCallback` parses callbacks. The case
  conversions are `slug`, `studly`, `camel` and `snake`, and `length`
  counts characters.
- `Arr` holds the array helpers: `except`, `only`, `replaceKey`,
  `replaceValue`, `depth`, `flatten`, `normalizeStacked` and `isEmpty`.

Strings are sequences of code points (`seq<char>`). A PHP array is an
ordered map, written as a list of (key, value) entries. A nested array is a
`Value` tree whose leaves are PHP scalars.

The modules follow the structure of the code:

- `Chars`: the character classes (ASCII letters and digits, the white space
  of `\s` under the `u` modifier, and the default character lists of `trim`
  and `ucwords`).
- `Builtins`: the PHP library functions the helpers call. These are
  `strpos`, `substr`, `str_replace`, `rtrim`, `trim`, `strtolower`,
  `ctype_lower`, `ucwords`, `lcfirst`, `mb_substr`, `explode`, and
  `preg_replace` with a single character class.
- `Glob`: the regular expression that `Str::is` builds, run as a
  backtracking matcher. It is proved to decide exactly "the pattern with
  each `*` filled by a line-free run".
- `WordMatch`: the regular expression `^\s*+(?:\S++\s*+){1,n}` of
  `Str::words`. Its match is characterised by word counts.
- `Str` and `Arr`: the two classes.

Most operations have a partner lemma: an inverse, an invariant or an
independent reference definition.

- The inverses are `parseCallback` (joining gives the callback back) and
  `normalizeStacked` (the rows give the columns back).
- `snake` as written does not undo `studly` (see Findings). The corrected
  look-ahead form does, and both are characterised position by position.
- `slug` is idempotent and always yields a slug. Removing its separators
  leaves exactly the lower-cased letters and digits of the title. Words
  with white space between them come out joined by single separators.
- The reference definitions are a filling of the wildcards for `is`, paths
  into the tree for `flatten`, the maximum nesting for `depth`, and the
  last-written value for `replaceKey`.
- `length` is `mb_strlen`, the length of the string. It has no partner.

## Model

| member | source | states |
|---|---|---|
| Builtins.IndexOf | src/BComp/Helper/Str.php:36 | `strpos` returns the first position where the needle occurs, and false exactly when it occurs nowhere |
| Builtins.TailFor | src/BComp/Helper/Str.php:59 | `substr($h, -strlen($n))` is the last `strlen($n)` characters, or the whole haystack when the needle is empty or longer |
| Builtins.StrReplace | src/BComp/Helper/Arr.php:121 | `str_replace` with an empty search string leaves the subject unchanged |
| Builtins.StrReplaceAbsent | src/BComp/Helper/Arr.php:159 | a subject without an occurrence of the search string comes back unchanged |
| Builtins.StrReplaceSelf | src/BComp/Helper/Arr.php:159 | replacing a string by itself changes nothing |
| Builtins.StrReplaceCharByChar | src/BComp/Helper/Str.php:324 | replacing one character by another works position by position and keeps the length |
| Builtins.StrReplaceCharByNothing | src/BComp/Helper/Str.php:326 | replacing a character by the empty string deletes every occurrence of it |
| Builtins.StrReplaceFirst | src/BComp/Helper/Arr.php:121 | `str_replace` copies the text before the first occurrence, puts the replacement there, and carries on after the occurrence |
| Builtins.RTrim | src/BComp/Helper/Str.php:124 | `rtrim` keeps a prefix, drops only trim characters, and leaves no trim character at the end |
| Builtins.TrimChar | src/BComp/Helper/Str.php:270 | `trim($s, $sep)` splits the input into a run of separators, the result and a run of separators; the result neither starts nor ends with the separator, and text without one at either end is kept |
| Builtins.StrToLower | src/BComp/Helper/Str.php:287 | `strtolower` lower-cases each character in place and keeps the length |
| Builtins.Ucwords | src/BComp/Helper/Str.php:324 | `ucwords` upper-cases the first character and each character after a word delimiter, and keeps the others |
| Builtins.Lcfirst | src/BComp/Helper/Str.php:18 | `lcfirst` lower-cases the first character and keeps the rest |
| Builtins.MbPrefix | src/BComp/Helper/Str.php:124 | `mb_substr($s, 0, $n)` is a prefix of the length `mb_substr` keeps, including for negative `n` |
| Builtins.ExplodeFirst | src/BComp/Helper/Str.php:179 | `explode('@', $s, 2)` splits at the first `@`, and joining the pieces with `@` gives `s` back |
| Builtins.ReplaceRuns | src/BComp/Helper/Str.php:262-268 | `preg_replace('![class]+!u', rep)` keeps only the replacement and characters of the input outside the class, keeps a first character outside the class, keeps a text without class characters, and leaves no two class characters adjacent when `rep` is one class character |
| Builtins.ReplaceRunsSingletons | src/BComp/Helper/Str.php:268 | collapsing runs into one separator changes nothing when every run already is one separator |
| Builtins.ReplaceRunsRun | src/BComp/Helper/Str.php:262-268 | a non-empty run of class characters becomes exactly one copy of the replacement |
| Builtins.ReplaceRunsAppend | src/BComp/Helper/Str.php:262-268 | the replacement works piece by piece across a boundary that does not join two class characters, so every maximal run is replaced on its own and every other character is kept in place |
| Builtins.ReplaceRunsKeep | src/BComp/Helper/Str.php:262-268 | characters of a kind the class and the replacement never contain are kept, all of them and in order |
| Builtins.ReplaceRunsLast | src/BComp/Helper/Str.php:262-268 | a last character outside the class stays last |
| Builtins.ReplaceRunsEmits | src/BComp/Helper/Str.php:262-268 | a text holding a character of the class gets the replacement |
| Builtins.ReplaceRunsKeepsOther | src/BComp/Helper/Str.php:262-268 | every character outside the class is kept |
| Builtins.Expand | src/BComp/Helper/Str.php:287 | how `preg_replace` reads a replacement: `\n`, `$n` (one or two digits) and `${n}` stand for group n, empty when there is no such group; `\\` and `\$` stand for the escaped character; anything else is copied; stated by `ExpandLiteral`, `ExpandSkip` and `SnakeDigitDelimiter` |
| Builtins.BackRefAt | src/BComp/Helper/Str.php:287 | a group reference starts with `\` or `$` followed by a digit or `{`, spans at least two characters and names a group below 100 |
| Builtins.ExpandSkip | src/BComp/Helper/Str.php:287 | a stretch without `$` or `\` is copied as it is |
| Builtins.ExpandLiteral | src/BComp/Helper/Str.php:287 | a replacement without `$` or `\` is copied as it is, whatever the groups |
| Builtins.TrimCharKeep | src/BComp/Helper/Str.php:270 | `trim` keeps every character other than the separator, in order |
| Builtins.StrToLowerKeep | src/BComp/Helper/Str.php:265 | lower-casing commutes with keeping the characters of a kind that lower-casing does not change |
| Builtins.DropCharKeep | src/BComp/Helper/Str.php:270 | in a text of separators and characters of one kind, deleting the separators leaves those characters |
| Builtins.DropCharLower | src/BComp/Helper/Str.php:287 | deleting a character that is not a letter commutes with `strtolower` |
| Builtins.CtypeLower | src/BComp/Helper/Str.php:287 | `ctype_lower` is true exactly for a non-empty text of lower-case letters |
| Glob.RegexMatchCorrect | src/BComp/Helper/Str.php:84-91 | the anchored expression built from the quoted pattern accepts a value exactly when some line-free filling of the wildcards spells it |
| Glob.RegexMatchSound | src/BComp/Helper/Str.php:89-91 | every value the matcher accepts comes with its filling of the wildcards |
| Glob.RegexMatchComplete | src/BComp/Helper/Str.php:89-91 | every line-free filling of the wildcards is accepted |
| Glob.MatchesLiteral | src/BComp/Helper/Str.php:84 | a pattern without `*` stands for its own text only, its metacharacters being quoted |
| Glob.RegexMatch | src/BComp/Helper/Str.php:89-91 | the backtracking matcher for the anchored expression; its meaning is stated by the lemmas above |
| WordMatch.MatchWordsCorrect | src/BComp/Helper/Str.php:153 | there is no match exactly when there is no word, the count is 0, or the count is above PCRE's largest repeat bound 65535; otherwise the match holds `min(n, words)` words and ends at the end or right before a word |
| WordMatch.MatchWords | src/BComp/Helper/Str.php:153 | the match of `^\s*+(?:\S++\s*+){1,n}`; its meaning is stated by the lemma above |
| WordMatch.TakeWordsCount | src/BComp/Helper/Str.php:153 | the repeated unit `\S++\s*+` takes `min(n, words left)` words and stops at the end or before a word |
| WordMatch.UnitWords | src/BComp/Helper/Str.php:153 | one unit `\S++\s*+` covers exactly one word |
| WordMatch.CutBeforeWord | src/BComp/Helper/Str.php:159-163 | a match that stops before a word leaves at least one word uncut, so the value is then truncated |
| Str.Contains | src/BComp/Helper/Str.php:33-42 | true exactly when some non-empty needle occurs in the haystack |
| Str.StartsWith | src/BComp/Helper/Str.php:302-311 | true exactly when some non-empty needle is a prefix of the haystack |
| Str.EndsWith | src/BComp/Helper/Str.php:56-65 | true exactly when some needle is a suffix; the empty needle counts only for the empty haystack |
| Str.Is | src/BComp/Helper/Str.php:78-92 | true exactly when the value equals the pattern or some line-free filling of its `*`s spells the value |
| Str.IsShortcutRedundant | src/BComp/Helper/Str.php:80-82 | the early `$pattern == $value` return changes no answer: the compiled expression alone already matches every pattern against itself, reading each `*` as a literal `*` |
| Str.IsLiteral | src/BComp/Helper/Str.php:84-91 | a pattern without `*` matches only its identical value |
| Str.IsStar | src/BComp/Helper/Str.php:89 | `*` alone matches exactly the values without a line feed, because `.` is used without the `s` modifier |
| Str.IsStarThenLiteral | src/BComp/Helper/Str.php:89-91 | `*` followed by literal text matches any line-free run followed by that text |
| Str.IsExamples | src/BComp/Helper/Str.php:70-71 | `is('*.php', 'myFile.php')` holds and `is('php', 'myFile.php')` does not |
| Str.Limit | src/BComp/Helper/Str.php:118-125 | a value of at most `limit` characters is kept; a longer one becomes a trimmed prefix of the kept characters followed by `end`, no longer than `limit` plus the length of `end` |
| Str.LimitExamples | src/BComp/Helper/Str.php:120-124 | "abcdef" limited to 3 is "abc..." and "abc" is kept |
| Str.Words | src/BComp/Helper/Str.php:151-164 | the value is kept when the count is 0, the count is above 65535, or the value has at most `count` words; otherwise it is cut right before word `count + 1`, right-trimmed, and followed by `end` |
| Str.ParseCallback | src/BComp/Helper/Str.php:177-180 | with `@`, the two pieces rejoin to the callback and the class has no `@`; without `@`, the pair is the callback and the default |
| Str.ParseCallbackRoundTrip | src/BComp/Helper/Str.php:179 | joining a class without `@` to a method with `@` and parsing gives the two back |
| Str.FirstSplitUnique | src/BComp/Helper/Str.php:179 | a text has only one split at an `@` whose left piece has no `@` |
| Str.ParseCallbackExamples | src/BComp/Helper/Str.php:169-170 | 'Class@methodName' gives ["Class", "methodName"] and 'ClassName' gives ["ClassName", "defaultMethod"] |
| Str.Slug | src/BComp/Helper/Str.php:257-271 | the result is a slug: separators, lower-case letters and digits only, with no two separators adjacent and none at either end |
| Str.SlugStages | src/BComp/Helper/Str.php:262-268 | after removing and collapsing, only separators, lower-case letters and digits remain, with no two separators adjacent |
| Str.TrimmedSlug | src/BComp/Helper/Str.php:270 | trimming the separator from such a text leaves a slug |
| Str.SlugFixesSlugs | src/BComp/Helper/Str.php:257-271 | a slug is its own slug |
| Str.SlugJoinedFixesSlugs | src/BComp/Helper/Str.php:260-268 | the stages before trimming leave a slug unchanged: a slug has no characters to flip, drop or turn into a separator and no upper-case letters |
| Str.SlugIdempotent | src/BComp/Helper/Str.php:257-271 | slugging twice gives what slugging once gives |
| Str.SlugFromTitle | src/BComp/Helper/Str.php:260-270 | every character of the slug other than the separator is a lower-cased character of the title |
| Str.SlugKeepsAlnums | src/BComp/Helper/Str.php:257-271 | deleting the separators from the slug gives exactly the letters and digits of the lower-cased title, all of them and in order |
| Str.SlugWords | src/BComp/Helper/Str.php:257-271 | a title made of words of letters and digits, with breaks between them that hold no letter or digit but some white space, separator or flipped dash, becomes the lower-cased words joined by single separators |
| Str.SlugJoinedWords | src/BComp/Helper/Str.php:260-268 | the same for the stages before trimming |
| Str.SlugJoinedAppend | src/BComp/Helper/Str.php:260-268 | the stages work separately on the two sides of a boundary next to a letter or digit |
| Str.SlugJoinedWord | src/BComp/Helper/Str.php:260-268 | a word of letters and digits comes out lower-cased |
| Str.SlugJoinedBreak | src/BComp/Helper/Str.php:260-268 | a break between words comes out as exactly one separator |
| Str.SlugJoinedStep | src/BComp/Helper/Str.php:260-268 | a word and a break in front of more words become the lower-cased word and one separator |
| Str.SlugTwoWords | src/BComp/Helper/Str.php:257-271 | two words with a space between them become the lower-cased first word, the separator and the lower-cased second word |
| Str.SlugExample | src/BComp/Helper/Str.php:250 | the documented `slug('mr. ganesha, this is a title')` is "mr-ganesha-this-is-a-title", and `slug('a  b_c')` is "a-b-c" |
| Str.StudlyWords | src/BComp/Helper/Str.php:324-326 | the character-by-character studly conversion leaves no dash, underscore or space |
| Str.StudlyWordsAppend | src/BComp/Helper/Str.php:324-326 | the studly conversion distributes over concatenation |
| Str.Studly | src/BComp/Helper/Str.php:322-327 | the result has no dash, underscore or space, and equals the character-by-character conversion |
| Str.StudlyStages | src/BComp/Helper/Str.php:324-326 | `ucwords` after turning breaks into spaces, then deleting spaces, is the character-by-character conversion |
| Str.SpacedBreaks | src/BComp/Helper/Str.php:324 | replacing `-` and `_` by spaces works position by position |
| Str.StudlyExample | src/BComp/Helper/Str.php:316 | `studly('snake_case')` is "SnakeCase" |
| Str.StudlyTwoWords | src/BComp/Helper/Str.php:324-326 | two lower-case words joined by `_` become the two words with their first letters capitalised, run together |
| Str.Camel | src/BComp/Helper/Str.php:16-19 | the studly form with its first character lower-cased: same length, no breaks, no capital first |
| Str.CamelExample | src/BComp/Helper/Str.php:10 | `camel('my_method')` is "myMethod" |
| Str.CamelTwoWords | src/BComp/Helper/Str.php:16-19 | two lower-case words joined by `_` become the first word followed by the second with its first letter capitalised |
| Str.Snake | src/BComp/Helper/Str.php:283-288 | an all-lower-case value is kept; for any other value and a delimiter that the replacement copies as text (no `$` or `\`, not starting with a digit), the value is lower-cased after the delimiter is put between each character and the capital that the left-to-right scan of `/(.)([A-Z])/` pairs it with; for every delimiter, no result has a capital |
| Str.SplitCapitals | src/BComp/Helper/Str.php:285-287 | `preg_replace('/(.)([A-Z])/', $replace)`: scans left to right, resumes after each capital it consumed, and writes `$replace` read with the match as its groups; stated by `SplitCapitalsSpliced`, `SplitCapitalsAgree` and `SnakeDigitDelimiter` |
| Str.SplitCapitalsSpliced | src/BComp/Helper/Str.php:285-287 | for a delimiter copied as text, the replacement copies the input and puts the delimiter right after position `i` exactly when the scan pairs character `i` with the capital after it |
| Str.SnakeTemplateExpand | src/BComp/Helper/Str.php:285-287 | the replacement `'$1'.$d.'$2'`, read with a match of a character and a capital, writes the character, then `d`, then the capital, for a delimiter copied as text |
| Str.SnakeTemplateWrites | src/BComp/Helper/Str.php:285-287 | the same for every character and capital at once |
| Str.SnakeDigitDelimiter | src/BComp/Helper/Str.php:285-287 | with the delimiter '1' the replacement is `$11$2`, whose `$11` names a group that does not exist, so `snake('fooBar', '1')` is "fobar" |
| Str.SplicedDrop | src/BComp/Helper/Str.php:287 | deleting a delimiter character that does not occur in the input gives the input back |
| Str.SnakeDropDelimiter | src/BComp/Helper/Str.php:283-288 | deleting a one-character delimiter that is not a letter and not in the value gives the lower-cased value |
| Str.SnakeExample | src/BComp/Helper/Str.php:276 | `snake('fooBar')` is "foo_bar" |
| Str.SnakeConsumesCapital | src/BComp/Helper/Str.php:287 | 'ABC' becomes "a_bc" as written, where the look-ahead form gives "a_b_c" |
| Str.SnakeAgrees | src/BComp/Helper/Str.php:287 | where no two capitals are adjacent, the pattern as written and the look-ahead form agree |
| Str.SplitCapitalsAgree | src/BComp/Helper/Str.php:287 | for a delimiter copied as text, the same agreement for the `preg_replace` step alone |
| Str.SnakeLookahead | src/BComp/Helper/Str.php:287 | the corrected `snake` keeps an all-lower-case value and leaves no capital |
| Str.SnakeStudlyRoundTrip | src/BComp/Helper/Str.php:283-288 | the corrected `snake` undoes `studly` on every snake-case identifier |
| Str.SnakeStudlyCounterexample | src/BComp/Helper/Str.php:287 | as written, `snake(studly('a_b_c'))` is "a_bc" |
| Arr.Lookup | src/BComp/Helper/Arr.php:121 | a key is found exactly when it is among the keys |
| Arr.LookupFirst | src/BComp/Helper/Arr.php:121 | the value found is the one of the first entry with that key |
| Arr.Except | src/BComp/Helper/Arr.php:36-39 | exactly the entries whose key is not hidden, in their original order |
| Arr.Only | src/BComp/Helper/Arr.php:85-88 | exactly the entries whose key is shown, in their original order |
| Arr.ExceptOnlyPartition | src/BComp/Helper/Arr.php:36-39 | `except` and `only` with the same keys split the map: disjoint, and together every entry once |
| Arr.AbsentKeysIgnored | src/BComp/Helper/Arr.php:38 | listing a key the map does not have changes neither result |
| Arr.ExceptOnlyExample | src/BComp/Helper/Arr.php:16-29 | the documented example of `except` and of `only` with the key 'age' |
| Arr.Put | src/BComp/Helper/Arr.php:121 | `$array[$k] = $v` keeps the key order and appends a new key at the end |
| Arr.PutLookup | src/BComp/Helper/Arr.php:121 | after the assignment `k` holds `v` and every other key holds what it held |
| Arr.Dedup | src/BComp/Helper/Arr.php:118-122 | the keys of the input, each once, in order of first appearance |
| Arr.ReplaceKey | src/BComp/Helper/Arr.php:116-125 | the result's keys are the replaced input keys in order of first appearance, each once |
| Arr.ReplaceKeyLastWins | src/BComp/Helper/Arr.php:120-122 | each key holds the value of the last entry written under it, and no other key is present |
| Arr.ReplaceKeyNoCollision | src/BComp/Helper/Arr.php:116-125 | when no two replaced keys coincide, every entry is renamed in place: size, order and values are kept |
| Arr.ReplaceKeyTwo | src/BComp/Helper/Arr.php:120-122 | two entries with different new keys keep their places and values |
| Arr.PrefixReplaced | src/BComp/Helper/Arr.php:121 | replacing a prefix whose first character does not occur later gives the replacement followed by the rest |
| Arr.ReplaceKeyPrefixed | src/BComp/Helper/Arr.php:116-125 | keys made of a common prefix and distinct suffixes are renamed in place to the replacement followed by their suffix, with their values |
| Arr.RenamedInPlace | src/BComp/Helper/Arr.php:116-125 | the same, stated as equality with the renamed list |
| Arr.ReplaceKeyExample | src/BComp/Helper/Arr.php:93-109 | the four documented entries ':type_address' to ':type_country' become 'user_address' to 'user_country' with their values, in place |
| Arr.ReplaceValue | src/BComp/Helper/Arr.php:154-163 | a list as long as the input whose element `i` is value `i` with the replacement made |
| Arr.ReplaceValueUnchanged | src/BComp/Helper/Arr.php:159 | values without the search string, and every value when a string is replaced by itself, come back unchanged |
| Arr.ReplaceValuePrefixed | src/BComp/Helper/Arr.php:159 | values made of a common prefix and a suffix become the replacement followed by their suffix |
| Arr.ReplaceValueExample | src/BComp/Helper/Arr.php:130-146 | the four documented headers ':type_address' to ':type_country' with ':type_' removed are 'address', 'citizenship', 'city' and 'country' |
| Arr.Depth | src/BComp/Helper/Arr.php:172-187 | the depth is at least 1, since the loop starts from 1 |
| Arr.DepthIsMax | src/BComp/Helper/Arr.php:172-187 | depth is above every nested array's depth, and is 1 or one above some nested array's depth |
| Arr.DepthFromIsMax | src/BComp/Helper/Arr.php:176-184 | the same for the loop from any entry on |
| Arr.DepthOne | src/BComp/Helper/Arr.php:174-177 | depth is 1 exactly when no value is an array |
| Arr.Flatten | src/BComp/Helper/Arr.php:248-257 | the result lists as many scalars as the nested array holds |
| Arr.FlattenFrom | src/BComp/Helper/Arr.php:252-254 | the walk of `array_walk_recursive` over the entries from one on; its meaning is stated by the lemmas below |
| Arr.FlattenValue | src/BComp/Helper/Arr.php:252-254 | the walk of one value: a scalar is listed, an array is walked |
| Arr.FlattenFirst | src/BComp/Helper/Arr.php:252-254 | a scalar first entry is listed before the rest, and a nested array first entry is flattened before the rest |
| Arr.FlattenMembers | src/BComp/Helper/Arr.php:248-257 | a scalar is listed exactly when it sits at some path in the nested array |
| Arr.FlattenSound | src/BComp/Helper/Arr.php:252-254 | every listed scalar sits at a path through the entries visited |
| Arr.FlattenComplete | src/BComp/Helper/Arr.php:252-254 | every scalar at such a path is listed |
| Arr.FlattenAppend | src/BComp/Helper/Arr.php:252-254 | the leaves of two maps in a row are listed one after the other |
| Arr.FlattenFlat | src/BComp/Helper/Arr.php:248-257 | on a map of depth 1, `flatten` gives the values in order |
| Arr.PhpEmpty | src/BComp/Helper/Arr.php:54 | `empty($value) or is_null($value)`: null, false, 0, '', '0' and the empty array |
| Arr.EmptyLoop | src/BComp/Helper/Arr.php:53-55 | the loop overwrites the flag on each value, so it ends as the emptiness of the last value, or the starting flag for an empty map |
| Arr.IsEmpty | src/BComp/Helper/Arr.php:48-61 | as written, true exactly for an empty map or one whose last value is empty |
| Arr.IsEmptyCounterexample | src/BComp/Helper/Arr.php:53-55 | a map whose first value is 1 and whose last is null counts as empty |
| Arr.IsEmptyAll | src/BComp/Helper/Arr.php:48-61 | corrected: true exactly when every value is empty |
| Arr.IsEmptyAllRefines | src/BComp/Helper/Arr.php:48-61 | the corrected version implies the original, and the two agree on maps of at most one entry |
| Arr.RowFrom | src/BComp/Helper/Arr.php:233-235 | row `i` pairs each key, in order, with the `i`-th element of its column, or null when the column is shorter |
| Arr.RowCount | src/BComp/Helper/Arr.php:230 | the loop bound `count(reset($array))`: the length of the first column, or 1 for an empty map |
| Arr.RowsFrom | src/BComp/Helper/Arr.php:230-237 | the rows from `i` on, one for each remaining index, row `r` being row `i + r` |
| Arr.NormalizeStacked | src/BComp/Helper/Arr.php:226-239 | as many rows as the first column has elements (one for an empty map); each row holds every key with its `i`-th element, or null where that is missing |
| Arr.NormalizeStackedRoundTrip | src/BComp/Helper/Arr.php:226-239 | for columns of one common non-zero length, turning the rows back into columns gives the input |
| Arr.NormalizeTwoColumns | src/BComp/Helper/Arr.php:226-239 | two columns of one common non-zero length give, for each index, the row of the two elements at that index |
| Arr.NormalizeStackedExample | src/BComp/Helper/Arr.php:195-214 | the documented columns of three first names and three last names give three rows, each pairing a first name with its last name |

## Left out

- `Str::random` and `Str::quickRandom` read entropy from OpenSSL or `str_shuffle`, so there is nothing deterministic to state.
- `Str::upper`, `Str::lower` and `Str::title` are thin wrappers over the Unicode case tables of `mb_*`.
- `Log.php`, `LogProvider.php` and `SchemaMapper.php` are not part of this model. They are logging and container wiring around foreign libraries.
- Str.Length: `mb_strlen` is the number of code points, which is the length of a string here. The function carries no contract of its own. `Limit` states its behaviour through it.
- Letters and digits are ASCII only. The `\pL`/`\pN` classes of `slug` and `mb_strtolower` would also accept and lower-case other scripts. White space is PCRE's `\s` under `u`: the `\p{Z}` separators, the horizontal space `\h` (which adds tab and U+180E) and the vertical space `\v`, listed in full in `Chars`.
- Str.Slug: the separator is one character. A longer separator turns the classes into "any of these characters", which is not modelled. `SlugWords` places the separators only for titles whose breaks between words each hold white space, the separator or the flipped dash. A break made only of other punctuation, as in 'a.b', which gives 'ab', is covered by `SlugKeepsAlnums` and by `Slug`'s own contract alone.
- The case conversions work on bytes in PHP (`strtolower`, `ucwords`, `lcfirst`, `ctype_lower`) and on code points here. Both touch only ASCII letters, so this matters only for how positions are counted.
- Loose comparison: `endsWith` and `is` compare with `==`, which treats numeric strings such as "1e1" and "10" as equal. The model compares exactly.
- Array keys are strings. PHP turns numeric string keys into integers, and `replaceValue` renumbers its result. The list returned by `ReplaceValue` stands for that renumbered array.
- Arr.ReplaceValue: the values are strings. For an array value, `str_replace` would work on its elements.
- Arr.PhpEmpty: floats and objects are not among the scalars, so `empty()` on them is not modelled.
- Arr.NormalizeStacked: for an empty map, `count(reset([]))` is `count(false)`. That is 1 up to PHP 7, which the model follows by giving one empty row; PHP 8 raises a TypeError instead. A missing element of a shorter column reads as null with a notice, modelled as `None`. Columns are lists; non-array column values are not modelled.
- Str.Words: the count is a natural number. A negative count makes the quantifier `{1,-1}`, which PCRE reads as literal text rather than a repeat; that case is not modelled.
- Str.Words: PCRE backtracking and recursion limits are not modelled. The patterns used are possessive, so they are linear.
- Str.Snake: where the delimiter goes is stated only for a delimiter that the replacement copies as text: no `$` or `\`, and not starting with a digit. For any other delimiter, `SplitCapitals` reads the replacement as PHP does, and `SnakeDigitDelimiter` shows one such case, but no general placement is stated.
- Str.SplitCapitalsSpliced: the same restriction to delimiters copied as text.
- Str.SplitCapitalsAgree: the same restriction to delimiters copied as text.
- Str.SnakeAgrees: the same restriction to delimiters copied as text.
- Str.SnakeDropDelimiter: stated only for a delimiter other than `$` and `\`, since those would be read as part of a group reference.
- Str.SnakeExample: it proves 'fooBar' → 'foo_bar' instead of the documented 'theCamelCaseVariable'. `Snake` itself states the result of every value position by position.
- Str.StudlyExample: it proves 'snake_case' → 'SnakeCase' instead of the documented 'the_snake_case_class_name'. `StudlyTwoWords` and `StudlyWordsAppend` extend it to more words.
- Str.EndsWith: the empty needle is not excluded. It matches only an empty haystack, because `substr($h, -0)` is the whole haystack. The model follows the code here rather than the "some needle is a suffix" wording of the documentation.

## Findings

| source | as written | input that shows it | evidently intended | confidence | as-written member | corrected member |
|---|---|---|---|---|---|---|
| src/BComp/Helper/Str.php:287 | `/(.)([A-Z])/` consumes the capital, so the capital that follows it cannot start the next match | `snake(studly('a_b_c'))`: `studly` gives 'ABC', and `snake` gives 'a_bc' instead of 'a_b_c' | a delimiter before every capital that follows a character, i.e. `/(.)(?=[A-Z])/`, so that `snake` undoes `studly` | high, not executed | Str.SnakeStudlyCounterexample | Str.SnakeStudlyRoundTrip |
| src/BComp/Helper/Arr.php:53-55 | each iteration overwrites `$empty`, so only the last value decides; and since `depth` is at least 1, the `empty($array)` branch at line 60 is dead | `isEmpty(['a' => 1, 'b' => null])` is true | true only when every value is empty | medium, not executed | Arr.IsEmptyCounterexample | Arr.IsEmptyAll |

# lora2wildcard tag pipeline, modelled in Dafny

lora2wildcard reads the training-tag metadata that kohya-style trainers
store in the header of a `.safetensors` LoRA file. From it, it builds one
wildcard prompt line per file. This project models the deterministic core
of that pipeline:

- `parse_tags`: turns the metadata strings into a flat list of
  (tag, frequency) entries. Covered:
  - the four tag-frequency keys, visited in a fixed order;
  - dict-shaped and list-shaped values, with nested dicts flattened one level;
  - values that do not decode;
  - the character, dataset and network entries.
- The stable sort in `get_prompt_from_metadata`, highest frequency first,
  and its projection to (tag, count) pairs.
- `generate_prompt_from_tags` for a threshold `th >= 0`:
  - `max_count` is the first nonzero count;
  - a tag is kept when its count exceeds `th * max_count` and it is not prohibited;
  - the kept tags are de-duplicated, sorted and joined with `", "`.
- The parts of `main` that are logic rather than I/O:
  - splitting and stripping `--prohibited_tags`;
  - the `--act` choice between the activation text and the derived tags;
  - `get_path_token`, which names the output file.

Modules:

- `JsonValue` (`json.dfy`): decoded JSON values, `dict` lookup, the
  numeric view of a frequency, and `Result` for the uncaught TypeError.
- `PyText` (`text.dfy`): the Python string operations the code relies on:
  - `str.strip`, `str.split` on one character, `str.join`, `in` on strings;
  - Python's string order;
  - `sorted(set(...))`.
- `TagParser` (`tags.dfy`): `parse_tags`. There are specification
  functions (`Tags` and its parts) and imperative methods that append entry
  by entry, as the source does. Each method is proved equal to its
  specification function.
- `TagSelect` (`select.dfy`): the projection, the stable descending sort,
  and the selection loop of `generate_prompt_from_tags` (`GeneratePrompt`,
  proved against the specification function `Prompt`). Lemmas state
  the selection rule and the effects of sorting first.
- `Lora2Wildcard` (`cli.dfy`): `get_prompt_from_metadata`, the `--act`
  choice, `get_path_token` and the prohibited-tag parsing.

Parameters stand in for the parts of the program that are not modelled:

- JSON decoding is a parameter `decode: string -> Decoded`, where
  `Undecodable` is a `JSONDecodeError`.
- Python's `str()` of a non-string network module is a parameter
  `render: Json -> string`.
- The metadata read from a file is an `Option<map<string, string>>`.
- The activation text is a plain string.
- `get_path_token` receives `Path.parts` as a sequence of strings.

Counts and the threshold are `real`, so the comparison `count > th * max_count`
is exact.

## Model

| member | source | states |
|---|---|---|
| JsonValue.Lookup | lora2wildcard.py:54-55 | `key in d` fails exactly when no member has the key; a found value is the value of a member with that key |
| JsonValue.Number | lora2wildcard.py:97-100 | a frequency has a numeric value exactly when it is an int, a float or a bool |
| PyText.IsSpace | lora2wildcard.py:173 | the characters `str.strip()` removes (`str.isspace`): space, tab, newline and carriage return are among them, and no visible ASCII character is |
| PyText.Strip | lora2wildcard.py:173 | `s.strip()` is a slice of `s` with only whitespace removed around it, and it neither starts nor ends with whitespace |
| PyText.StripIdempotent | lora2wildcard.py:173 | stripping twice is stripping once |
| PyText.Split | lora2wildcard.py:172 | `s.split(sep)` gives at least one piece, and a string without the separator is its own only piece |
| PyText.SplitPieces | lora2wildcard.py:172 | `split(",")` gives one piece more than there are commas, and no piece holds a comma |
| PyText.SplitThenJoin | lora2wildcard.py:172 | joining the pieces of a split with the separator rebuilds the string |
| PyText.JoinThenSplit | lora2wildcard.py:172 | splitting a join of separator-free pieces gives the pieces back |
| PyText.JoinWith | lora2wildcard.py:108 | `sep.join(parts)` is "" for no parts; otherwise it starts with the first part, and the separator follows it when there are two parts or more |
| PyText.Less | lora2wildcard.py:108 | Python's string order: no string is below "", and a proper prefix sorts before the longer string |
| PyText.Contains | lora2wildcard.py:75 | `sub in s` for strings: only a string no longer than `s` is in it, "" is in every string, and a one-character string is in `s` exactly when its character occurs in `s` |
| PyText.ContainsAt | lora2wildcard.py:75 | `sub in s` holds exactly when `sub` occurs in `s` at some position |
| PyText.LessTotal | lora2wildcard.py:108 | Python's string order puts any two different strings one way round only |
| PyText.LessTransitive | lora2wildcard.py:108 | Python's string order is transitive |
| PyText.LessIrreflexive | lora2wildcard.py:108 | no string is below itself |
| PyText.SortedSet | lora2wildcard.py:106-108 | `sorted(set(xs))` is strictly ascending, so it has no duplicates, and it holds exactly the strings of `xs` |
| PyText.SortedListingUnique | lora2wildcard.py:106-108 | two strictly ascending lists with the same elements are equal, so the prompt depends only on the set of kept tags |
| TagParser.KeyEntries | lora2wildcard.py:36-58 | one recognised key: an undecodable value gives its raw string with frequency 1, a value that is neither a dict nor a list gives nothing, and a list gives at most one entry per item |
| TagParser.CharacterEntries | lora2wildcard.py:60-67 | one entry of frequency 1 per item, in order, when `ss_character_tags` decodes to a list; nothing when it is absent, does not decode or is not a list |
| TagParser.DatasetEntries | lora2wildcard.py:69-70 | one entry `"dataset: " + name` of frequency 1 exactly when `ss_dataset_name` is present, and nothing otherwise |
| TagParser.NetworkEntries | lora2wildcard.py:72-78 | the network block: nothing without `ss_network_args` or when it does not decode. One entry, `"network: " + str(module)` with frequency 1, exactly when it decodes to a dict with "network_module". A TypeError exactly when it decodes to a list holding "network_module", a string containing it, or a number, bool or null |
| TagParser.Tags | lora2wildcard.py:29-80 | `parse_tags` raises exactly when its network block does, and metadata with none of the keys it reads gives no entries |
| TagParser.InnerEntries | lora2wildcard.py:42-45 | a nested dict yields one entry per inner member, in order, with its key as the tag; the outer key is dropped |
| TagParser.OnePerItem | lora2wildcard.py:63-65 | each character tag yields one entry of frequency 1, in order |
| TagParser.DictShape | lora2wildcard.py:39-48 | an entry comes from a dict-shaped value exactly when some member yields it: a (key, value) member, or an inner member of a dict-valued member |
| TagParser.DictEntriesAppend | lora2wildcard.py:41-48 | the entries of a dict-shaped value are its members' entries concatenated in member order |
| TagParser.ListShape | lora2wildcard.py:49-55 | an entry comes from a list-shaped value exactly when some item yields it: a string item with frequency 1, or a dict item with "name" and its "frequency" defaulting to 1 |
| TagParser.ListEntriesAppend | lora2wildcard.py:51-55 | the entries of a list-shaped value are its items' entries concatenated in item order |
| TagParser.ListEntriesAtMostOne | lora2wildcard.py:51-55 | a list-shaped value yields at most one entry per item |
| TagParser.KeyOrder | lora2wildcard.py:32-37 | the frequency entries are those of `ss_tag_frequency`, `ss_tag_frequency_0`, `tag_frequency` and `tags`, in that order, each present key contributing |
| TagParser.UndecodableKeepsRaw | lora2wildcard.py:56-58 | a recognised key whose value does not decode contributes its raw string with frequency 1 |
| TagParser.TrailingEntries | lora2wildcard.py:60-78 | the parsed list is the frequency entries followed by the character entries, then the dataset entry, then the network entry, and nothing else; every entry after the frequency entries has frequency 1, and the dataset entry is among them when `ss_dataset_name` is present |
| TagParser.NetworkEntryLast | lora2wildcard.py:72-76 | when the network arguments are an object naming `network_module`, parsing succeeds and the last entry is `"network: " + str(module)` |
| TagParser.ParseTags | lora2wildcard.py:29-80 | the appending procedure returns exactly the entry list specified by `Tags`, or its TypeError |
| TagParser.AppendFrequencies | lora2wildcard.py:32-58 | the loop over the recognised keys appends exactly the frequency entries of the present keys |
| TagParser.AppendDict | lora2wildcard.py:39-48 | the nested loops over a dict-shaped value append exactly its entries |
| TagParser.AppendList | lora2wildcard.py:49-55 | the loop over a list-shaped value appends exactly its entries |
| TagParser.AppendOnes | lora2wildcard.py:60-65 | the loop over the character tags appends one entry of frequency 1 per tag |
| TagParser.AppendNetwork | lora2wildcard.py:72-78 | the network block appends the network entry when there is one, and raises TypeError when the value is a list or string holding "network_module", or a number, bool or null |
| TagSelect.Counts | lora2wildcard.py:114-115 | the projection keeps one (tag, count) pair per entry, in order; it fails exactly when some frequency is not a number |
| TagSelect.SortDesc | lora2wildcard.py:114 | the sort returns a permutation of its input with counts non-increasing |
| TagSelect.SortDescStable | lora2wildcard.py:114 | the sort is stable: the pairs of any one count keep their relative order |
| TagSelect.FirstNonzero | lora2wildcard.py:84-89 | the value `max_count` settles on: when it is not 0 it is the count of some pair |
| TagSelect.FirstNonzeroIsFirst | lora2wildcard.py:84-89 | `max_count` is 0 exactly when every count is 0, and otherwise it is the count of an entry preceded only by zero counts |
| TagSelect.FirstNonzeroSnoc | lora2wildcard.py:88-89 | `if not max_count: max_count = count` maps the value for a prefix to the value for the prefix one longer |
| TagSelect.FirstNonzeroPrefix | lora2wildcard.py:88-89 | once `max_count` is set it never changes |
| TagSelect.Selected | lora2wildcard.py:86-104 | `res`: at most one tag per entry, never a prohibited tag, and only strings when every tag is a string |
| TagSelect.SelectedMembers | lora2wildcard.py:86-104 | a tag is in `res` exactly when some entry of it is not prohibited and its count exceeds `th` times `max_count` as it stands at that entry |
| TagSelect.PickedAgainstFirstNonzero | lora2wildcard.py:88-100 | with non-negative counts, comparing with the running `max_count` and with the first nonzero count of the whole list decide the same |
| TagSelect.SelectionRule | lora2wildcard.py:84-104 | with non-negative counts, a tag is kept exactly when it is not prohibited and one of its counts exceeds `th` times the first nonzero count of the list, whether or not that count belongs to a prohibited tag |
| TagSelect.Assemble | lora2wildcard.py:106-108 | `", ".join(sorted(list(set(res))))` raises exactly when some tag of `res` is not a string; it is "" for an empty `res`, and a tag kept several times appears once |
| TagSelect.Prompt | lora2wildcard.py:83-108 | `generate_prompt_from_tags` for `th >= 0`: "" for no tags, and no TypeError when every tag is a string |
| TagSelect.GeneratePrompt | lora2wildcard.py:83-108 | the loop, with `max_count` starting unset, computes the prompt specified by `Prompt` |
| TagSelect.PromptShape | lora2wildcard.py:106-108 | the prompt fails exactly when a kept tag is not a string; otherwise it is the `", "`-join of a strictly ascending list holding exactly the kept strings |
| TagSelect.EmptySelection | lora2wildcard.py:106-108 | when no entry is kept the prompt is "" |
| TagSelect.SortedHeadIsMax | lora2wildcard.py:114 | after the sort the first pair comes from the input and has the largest count |
| TagSelect.MaxCountAfterSort | lora2wildcard.py:114-116 | when some count is positive, `max_count` after the sort is positive, is a count of the input and bounds every count |
| TagSelect.SortedCounts | lora2wildcard.py:114 | the sort neither adds nor drops pairs |
| TagSelect.NotPickedAboveOne | lora2wildcard.py:95-100 | on a sorted list of non-negative counts with `th >= 1` no entry is kept |
| TagSelect.ThresholdAtLeastOne | lora2wildcard.py:114-116 | with `th >= 1` and non-negative counts the sorted pipeline gives "" |
| TagSelect.ThresholdZero | lora2wildcard.py:114-116 | with `th = 0` the sorted pipeline keeps exactly the non-prohibited tags with a positive count |
| TagSelect.ProhibitedTagSetsThreshold | lora2wildcard.py:88-93 | a prohibited tag still sets `max_count`: with "white background" (10) prohibited and th 0.5, "1girl" (4) is dropped |
| Lora2Wildcard.PromptFromMetadata | lora2wildcard.py:110-119 | no metadata gives ""; so does metadata with none of the keys `parse_tags` reads; a TypeError from parsing is passed on |
| Lora2Wildcard.GetPromptFromMetadata | lora2wildcard.py:110-119 | missing or empty metadata gives ""; otherwise the result is parse, project, sort, then threshold, with any TypeError passed on |
| Lora2Wildcard.HighThresholdEmptyPrompt | lora2wildcard.py:110-119 | with `th >= 1`, metadata that parses with non-negative numeric frequencies gives "" |
| Lora2Wildcard.ChoosePrompt | lora2wildcard.py:185-194 | the primary source wins when it is non-empty; the result is one of the two sources; it is "" only when both are; it raises exactly when the derived prompt raises and is consulted |
| Lora2Wildcard.ModesDifferOnlyWhenBothPresent | lora2wildcard.py:185-194 | with and without `--act` the outcome differs exactly when the activation text is non-empty and the derived prompt raises or is a different non-empty text |
| Lora2Wildcard.PathToken | lora2wildcard.py:148-156 | the last two path parts joined by "_", the only part, or "" |
| Lora2Wildcard.PathTokenSplits | lora2wildcard.py:148-152 | when the parts hold no "_", splitting the token on "_" gives back the last two parts (or the only part) |
| Lora2Wildcard.ParseProhibited | lora2wildcard.py:172-173 | one name per comma plus one; no name holds a comma or has whitespace at either end |
| Lora2Wildcard.ProhibitedPiece | lora2wildcard.py:172-173 | each name is its comma-separated piece with the surrounding whitespace removed |
| Lora2Wildcard.ProhibitedRoundTrip | lora2wildcard.py:172-173 | names written as a ", "-separated list are read back unchanged, when none holds a comma or edge whitespace |
| Lora2Wildcard.DefaultProhibited | lora2wildcard.py:164 | the default option value yields "simple background" and "white background" |

## Left out

- `extract_metadata_from_safetensors` calls the foreign safetensors reader and does file I/O. Its result is the `Option<map<string, string>>` parameter.
- `json.loads` is a library parser. It is the `decode` parameter. Decoded objects hold each key once, as Python dicts do, so duplicate JSON keys are not modelled.
- Python's `str()` of a non-string `network_module` value is the `render` parameter.
- The `th < 0` branch of `generate_prompt_from_tags` depends on `random.random()`. `GeneratePrompt`, `PromptFromMetadata` and their callers require `th >= 0`.
- `get_activation_text_from_json` reads a sidecar JSON file. Its result is the plain `activation` string given to `ChoosePrompt`, so a non-string "activation text" value is not modelled.
- Lora2Wildcard.ChoosePrompt: it raises exactly when the derived prompt raises and is consulted, but only within the model. The sidecar read (lines 128-132) can also raise: on invalid JSON, or when the top-level value has no `.get`. Those errors are not modelled.
- Not modelled, because they are I/O or plumbing:
  - directory globbing in `get_safetensors_files`;
  - argparse;
  - timing and `get_time_str`;
  - writing the output file.
- The `<lora:name:weight>` prefix (line 196) formats a float with `:.2f`. Floating-point formatting is not modelled.
- The dead `if False:` escaping block (lines 101-103) is not modelled.
- The `"type"` field of character, dataset and network entries is never read, so entries carry only tag and frequency.
- Floats are exact reals, so rounding in `th * max_count` is not modelled.
- Integers are unbounded in the model. In Python, `th * max_count` (line 98) raises OverflowError when `max_count` is an int too large for a float, such as a JSON frequency of `10**400`. The model computes the real product instead.
- `decode` models only the JSONDecodeError that line 56 catches. On Python 3.11 and later, `json.loads` raises a plain ValueError for an integer literal of more than 4300 digits, and that error escapes parse_tags. It is not modelled.
- Non-finite floats (NaN, ±Infinity, from `json.loads` or from `--th`) are not modelled. In Python a +Infinity count sorts first and makes `th * max_count` infinite, or NaN when `th = 0`, so nothing is kept. A -Infinity count sorts last. A NaN makes every comparison false and leaves the sort order undefined. Lone surrogates from `"\ud800"` escapes cannot be a Dafny `char` and are not modelled either.
- `get_path_token` receives `Path.parts`; pathlib's splitting of the directory path is not modelled. In Python the root is a part of its own, so `Path("/loras")` gives `"/_loras"`, and `Path(".")` has no parts and gives `""`.
- The `print` calls are not modelled: the "ignore" message for prohibited tags, the decode-error message and the missing-metadata message.
- TagSelect.Counts: every non-numeric frequency is treated as a TypeError. Python raises only when such a value is compared in the sort or multiplied by `th`. For example, a lone string frequency on a prohibited tag would not raise in Python.
- TagSelect.SelectionRule: requires non-negative counts. Take a zero count that comes before a negative first nonzero count, with `th > 0`. It clears the whole-list bar but not the bar the loop had when it reached that entry. `TagSelect.SelectedMembers` states the rule for any counts.
- TagSelect.ThresholdAtLeastOne: requires non-negative counts. With all counts negative the bar `th * max_count` can fall below them (counts -1 and -2, `th` 2), and tags are kept.

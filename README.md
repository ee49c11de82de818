# Locres2JSON exporter core in Dafny

Locres2JSON turns the localisation table of a game (the `Game.locres` file, first
converted to CSV) into a nested JSON document. This project models
`locresexporter/exporter.py`, the exporter at the centre of that conversion, and proves
properties of the model:

- **Key paths.** Each CSV row has a `key` and a `source` text. The key is normalised by
  replacing `KAY/O` with `KAYO` and is then split on `/` into a path. `KAY/O` is an agent
  name that would otherwise be split in two.
- **The tree builder.** `__add_child` places the row's text at the end of its path in a
  growing document. It creates missing intermediate objects, and a later assignment to
  the same key wins. `csv_to_json` loops over the rows and applies it to each one.
- **Path placeholders.** `apply_language_to_path` substitutes `{pak_language}` and
  `{folder_language}`. `apply_game_version_to_path` substitutes `{game_version}`. The
  version stamp is composed as `<pak>-<field 0>-<field 2>-<build>`. The build is the last
  `.`-separated part of field 3, with its leading zeros stripped.
- **Write decisions.** The primary file is created with mode `xt` when missing. When the
  file is already there, it is overwritten with mode `wt` only if overwriting is forced or
  the user answers `y`/`yes` in any case. When the package-level configuration exists, the
  archive copy is written without a prompt, with `wt` or `xt` depending on whether it
  exists.

The modules follow that structure:

- `wrappers.dfy`: `Option` and `Result`.
- `text.dfy`: Python's `str.replace`, `str.split` and `str.join`, for a non-empty
  pattern. Its lemmas tie them together, for example that a join undoes a split and that
  a replace is a split followed by a join.
- `paths.dfy`: placeholder substitution and the version stamp.
- `key_tree.dfy`: the document as a value. An object is a list of `(key, node)` entries
  in insertion order, as a Python `dict` keeps them. Its lookup and assignment are `Get`
  and `Set`, and `Insert` is `__add_child`. The lemmas say exactly when insertion
  succeeds and what it changes as seen through any lookup path. They also cover key order
  and the uniqueness of keys.
- `tree_builder.dfy`: the row loop. It is written both as a function (`Build`) and as the
  `while` loop method (`BuildTree`), which is proved equal to it. Its lemmas cover
  last-write-wins, the report of the failing row, where every string came from, the
  top-level key order, and worked examples.
- `write_policy.dfy`: the two `open` modes and the overwrite decision.
- `export.dfy`: one call of `csv_to_json` after the CSV has been read. It builds the
  document, then makes the primary write and the archive write.

The model follows the code in three places where one might expect otherwise:

- **A string already on the path is an error.** Suppose a row puts a string at a proper
  prefix of a later row's path, for example `a` and then `a/b`. Python then calls `.get`
  on, or assigns an item into, a `str`. The exception aborts the whole conversion before
  anything is written. The model returns `Err` naming the row and the prefix, and proves
  this is the only way a conversion fails (`KeyTree.InsertSucceedsIff`,
  `TreeBuilder.BuildFailure`). The opposite order, `a/b` then `a`, simply replaces the
  object by the string.
- **Only `/` separates keys.** `KAY/O.intro` and `KAYO.outro` become two top-level keys,
  `KAYO.intro` and `KAYO.outro`. They do not become one `KAYO` object
  (`TreeBuilder.ExampleKayo`).
- **Substitution is sequential.** `apply_language_to_path` replaces `{pak_language}`
  first and then `{folder_language}` in the result. A pak code that itself contains
  `{folder_language}` is therefore substituted again (`Paths.ApplyLanguageIsSequential`).

Inputs that come from outside the process are parameters:

- the CSV rows;
- the set of paths that exist;
- the user's answer to the overwrite prompt;
- the archive configuration's `output_path`;
- the strings decoded from the game executable.

## Model

| member | source | states |
|---|---|---|
| Text.Replace | locresexporter/exporter.py:70 | `str.replace` with a non-empty pattern, scanning left to right without overlaps; a string in which the pattern does not occur is returned unchanged |
| Text.Split | locresexporter/exporter.py:70 | `str.split` with a non-empty separator; the result always has at least one piece |
| Text.SplitFirstIsPrefix | locresexporter/exporter.py:70 | the first piece of a split is a prefix of the string |
| Text.SplitPiecesAreFree | locresexporter/exporter.py:70 | no piece of a split contains the separator |
| Text.JoinOfSplit | locresexporter/exporter.py:70 | joining the pieces with the separator gives back the original string |
| Text.SplitOfJoin | locresexporter/exporter.py:70 | splitting the join of pieces that do not contain a one-character separator gives back those pieces |
| Text.ReplaceIsJoinOfSplit | locresexporter/exporter.py:70 | `s.replace(p, r)` equals `r.join(s.split(p))` |
| Text.OccursChar | locresexporter/exporter.py:70 | a one-character pattern occurs in a string exactly when its character does |
| Text.ReplaceAfterFreePrefix | locresexporter/exporter.py:28-29 | text before the first character of the pattern is copied unchanged |
| Text.ReplaceLoneOccurrence | locresexporter/exporter.py:28-29 | a single occurrence of the pattern, whose first character appears nowhere else, becomes the replacement and nothing else changes |
| Text.SplitLast | locresexporter/exporter.py:102 | the string is the join of all pieces but the last, then the separator, then the last piece; or, when there is one piece, that piece |
| Text.ReplaceNeverLengthens | locresexporter/exporter.py:70 | a replacement no longer than the pattern never makes the string longer |
| Text.JoinKeepsAbsence | locresexporter/exporter.py:70 | a character found in neither the parts nor the separator is not in their join |
| Text.OccursNeedsChar | locresexporter/exporter.py:70 | a pattern cannot occur in a string that lacks one of its characters |
| Text.ReplaceKeepsPrefixBack | locresexporter/exporter.py:70 | a prefix of a replaced string that avoids the replacement's first character was already a prefix of the original |
| Text.OccursAfter | locresexporter/exporter.py:70 | a leading character other than the pattern's first does not change whether the pattern occurs |
| Text.OccursInMiddle | locresexporter/exporter.py:70 | a pattern occurs in any string that has it in the middle |
| Text.JoinSplitAt | locresexporter/exporter.py:70 | a join is the join of the first parts, the separator, then the join of the rest |
| Text.JoinStartsWithFirst | locresexporter/exporter.py:70 | a join starts with its first part |
| Text.JoinEndsWithLast | locresexporter/exporter.py:70 | a join ends with its last part |
| Text.JoinThree | locresexporter/exporter.py:70 | the join of three parts is the parts with the separator between each pair |
| Paths.ApplyLanguage | locresexporter/exporter.py:27-29 | both language placeholders are substituted, pak first; a path without either placeholder is unchanged |
| Paths.ApplyLanguageIdempotent | locresexporter/exporter.py:27-29 | once no placeholder is left, substituting again changes nothing |
| Paths.FolderTokenIsNotPakToken | locresexporter/exporter.py:28 | replacing `{pak_language}` leaves a string that starts with `{folder_language}` untouched, provided the rest after that token holds no `{` |
| Paths.ApplyLanguageToFolderPath | locresexporter/exporter.py:27-29 | a path naming `{folder_language}` once and holding no other `{` anywhere, such as the `Game.locres` and `Game.csv` paths, gets the folder code in that place and is otherwise unchanged |
| Paths.ApplyLanguageToPakPath | locresexporter/exporter.py:27-29 | a path naming `{pak_language}` once and holding no other `{` anywhere, such as the text pak path, gets the pak code in that place and is otherwise unchanged, provided the pak code holds no `{` either |
| Paths.ApplyLanguageIsSequential | locresexporter/exporter.py:28-29 | a pak code that reads `{folder_language}` is itself replaced by the folder code |
| Paths.LastDotPart | locresexporter/exporter.py:102 | `rsplit('.')[-1]` is a suffix that contains no `.`; either it is the whole string or it is preceded by a `.` |
| Paths.StripLeadingZeros | locresexporter/exporter.py:102 | `lstrip('0')` is a suffix that does not start with `0`, and everything removed was a `0` |
| Paths.BuildNumber | locresexporter/exporter.py:102 | `rsplit('.')[-1].lstrip('0')` is a suffix of the field that contains no `.` and does not start with `0` |
| Paths.GameVersion | locresexporter/exporter.py:101-102 | the stamp exists exactly when there are at least four fields, because fewer is an IndexError; it starts with the pak code |
| Paths.GameVersionFields | locresexporter/exporter.py:101-102 | when the parts contain no `-`, the stamp splits on `-` back into exactly the pak code, field 0, field 2 and the build number |
| Paths.ApplyGameVersion | locresexporter/exporter.py:104-107 | the version is computed before any substitution, so too few fields fail even for a path without the placeholder; a path without the placeholder is otherwise unchanged |
| Paths.ApplyGameVersionToArchivePath | locresexporter/exporter.py:107 | an output path with one `{game_version}` gets the stamp in that place |
| KeyTree.Get | locresexporter/exporter.py:86 | `d.get(k)` is absent exactly when `k` is not a key; when present, `(k, value)` is an entry |
| KeyTree.Set | locresexporter/exporter.py:82 | after `d[k] = n`, `k` maps to `n`; an existing key keeps its place in the key order and a new key is appended |
| KeyTree.SetFrame | locresexporter/exporter.py:88 | `d[k] = n` leaves every other key as it was |
| KeyTree.SetEntries | locresexporter/exporter.py:82 | every entry after `d[k] = n` is either the new value or an old entry |
| KeyTree.Insert | locresexporter/exporter.py:79-90 | `__add_child`: on success, the top-level key order gains the path's first key only if it is new; a failure names a proper, non-empty prefix of the path |
| KeyTree.InsertSucceedsIff | locresexporter/exporter.py:79-90 | insertion succeeds if and only if no proper prefix of the path holds a string, and the prefix a failure names does hold one |
| KeyTree.InsertFind | locresexporter/exporter.py:79-90 | after an insertion, the path holds the value, its proper prefixes hold objects, nothing exists below the path, and every path that branches off elsewhere is untouched |
| KeyTree.InsertElsewhere | locresexporter/exporter.py:86-88 | an insertion changes no top-level key other than the path's first |
| KeyTree.InsertKeyOrder | locresexporter/exporter.py:86-88 | at every object the path passes through, its key keeps its place if it was there and is appended if it is new |
| KeyTree.InsertWellFormed | locresexporter/exporter.py:79-90 | insertion keeps every key unique within its object |
| KeyTree.InsertIntoEmpty | locresexporter/exporter.py:86-90 | into an empty object, a path inserts a single chain of newly created objects |
| KeyTree.InsertKeepsLeaf | locresexporter/exporter.py:79-90 | a string survives any later insertion whose path is neither its own path nor a prefix of it |
| TreeBuilder.NormalizeKey | locresexporter/exporter.py:70 | `replace("KAY/O", "KAYO")` keeps a key without `KAY/O` as it is and never makes a key longer |
| TreeBuilder.KeyPath | locresexporter/exporter.py:70 | the normalised and split key is never empty |
| TreeBuilder.KeyPathSegments | locresexporter/exporter.py:70 | no segment holds a `/`, and joining the segments with `/` gives back the normalised key |
| TreeBuilder.KayoStaysOneSegment | locresexporter/exporter.py:70 | a key that contains `KAY/O` once, with no other `/` and no other `K` around it, stays a single segment, with `KAYO` in the same place |
| TreeBuilder.KeyPathWithoutSlash | locresexporter/exporter.py:70 | a key without `/` is a path of one segment, the key itself |
| TreeBuilder.KeyPathOfSegments | locresexporter/exporter.py:70 | one or more segments free of `/`, whose `/`-joined key contains no `KAY/O`, come back unchanged from that key |
| TreeBuilder.NoKayoLeft | locresexporter/exporter.py:70 | no `KAY/O` is left in any normalised key |
| TreeBuilder.KayoAtSeam | locresexporter/exporter.py:70 | a piece ending in `KAY` followed by `/` and a piece starting with `O` contains `KAY/O` |
| TreeBuilder.KayoAcrossSegments | locresexporter/exporter.py:70 | if one segment ends in `KAY` and the next starts with `O`, their `/`-join contains `KAY/O` |
| TreeBuilder.KayoNeverSplit | locresexporter/exporter.py:70 | in the path of any key, no segment ending in `KAY` is followed by a segment starting with `O` |
| TreeBuilder.KeyPathOfThree | locresexporter/exporter.py:70 | three segments free of `/` and `O` come back from their `/`-joined key |
| TreeBuilder.KayoBetweenSegments | locresexporter/exporter.py:70 | `a/KAY/O/b`, with `a` and `b` free of `/` and `K`, splits into `a`, `KAYO`, `b` |
| TreeBuilder.Build | locresexporter/exporter.py:67-70 | the rows are inserted in order into one document, and the first failing row aborts with its index |
| TreeBuilder.BuildTree | locresexporter/exporter.py:67-70 | the `for` loop over the rows computes exactly `Build` |
| TreeBuilder.BuildFailureIsFinal | locresexporter/exporter.py:68-70 | once a prefix of the rows has failed, later rows change nothing |
| TreeBuilder.BuildWellFormed | locresexporter/exporter.py:67-70 | the built document never has a key twice in one object |
| TreeBuilder.BuildFailure | locresexporter/exporter.py:68-70 | a failure names the first row that could not be placed: all earlier rows were placed, and the reported proper prefix of its path held a string at that point |
| TreeBuilder.BuildLastWriteWins | locresexporter/exporter.py:68-70 | a row's text is found at its path unless some later row's path is that path or a prefix of it |
| TreeBuilder.FirstSeenHeadsAreTheHeads | locresexporter/exporter.py:67-70 | the first-seen order of the rows' first segments has no duplicates and holds exactly those segments |
| TreeBuilder.BuildRootOrder | locresexporter/exporter.py:67-70 | the top-level keys of the document are the rows' first segments, in first-seen order |
| TreeBuilder.NoFailureWithoutPrefixes | locresexporter/exporter.py:68-70 | rows none of whose paths is a proper prefix of another's never fail |
| TreeBuilder.LeafCameFromRow | locresexporter/exporter.py:68-70 | every string in the document was put there by a row with exactly that path |
| TreeBuilder.ExampleLaterRowWins | locresexporter/exporter.py:82 | rows `a/b=1`, `a/b=2` give `{"a": {"b": "2"}}` |
| TreeBuilder.ExampleLeafReplacesBranch | locresexporter/exporter.py:82 | rows `a/b=1`, `a=2` give `{"a": "2"}` |
| TreeBuilder.ExampleBranchOverLeafFails | locresexporter/exporter.py:86-90 | rows `a=2`, `a/b=1` fail at row 1 on prefix `a` |
| TreeBuilder.ExampleNesting | locresexporter/exporter.py:79-90 | row `x/y/z=v` gives `{"x": {"y": {"z": "v"}}}` |
| TreeBuilder.ExampleKeyOrder | locresexporter/exporter.py:86-88 | rows `b/c=1`, `a/c=2` give `b` before `a` |
| TreeBuilder.ExampleKayo | locresexporter/exporter.py:70 | rows `KAY/O.intro=Hello`, `KAYO.outro=Bye` give two top-level strings `KAYO.intro` and `KAYO.outro` |
| TreeBuilder.ExampleKilljoyPath | locresexporter/exporter.py:70 | the key `Characters/Killjoy/Name`, which has a `K` but no `KAY/O`, splits into its three segments |
| TreeBuilder.ExampleKayoInPath | locresexporter/exporter.py:70 | the key `Agents/KAY/O/Name` splits into `Agents`, `KAYO`, `Name` |
| WritePolicy.Lower | locresexporter/exporter.py:122 | `lower()`, on ASCII, keeps the length and leaves no capital letter; each character is kept or is the lower-case form of a capital |
| WritePolicy.AffirmativeSpellings | locresexporter/exporter.py:122 | `lower()` equals `"y"` or `"yes"` exactly when the answer is one of the ten case variants of `y` and `yes` |
| WritePolicy.PrimaryDecision | locresexporter/exporter.py:113-126 | a missing target is created with `xt`; an existing target is truncated with `wt` when forced, and otherwise if and only if the answer is a yes, being skipped if and only if it is not; the mode is `xt` exactly when the target is missing, and its open-mode code is the string `"xt"` or `"wt"` accordingly |
| WritePolicy.ArchiveMode | locresexporter/exporter.py:132 | the archive copy uses `xt` exactly when its target is missing and `wt` otherwise, with no question asked; the open-mode code is the string `"xt"` or `"wt"` accordingly |
| Exporter.CsvToJson | locresexporter/exporter.py:59-76 | a failing row means no document, no write and a report of that row's failure; otherwise the document dumped is exactly the tree built from the rows and no build failure is reported; the primary write goes to the given path with a fitting mode and is skipped exactly under the prompt rule; the archive copy is written exactly when the configuration exists and the version can be composed, to `output_path` stamped with the game version, with a mode that fits the files as they stand after the primary write; otherwise an unreadable version is reported |
| Exporter.ArchiveIgnoresAnswer | locresexporter/exporter.py:128-133 | the archive copy does not depend on the user's answer about the primary file |

## Left out

- `export_locres`, `locres_to_csv` and `get_aes_key` (lines 22-52): they run QuickBMS and UnrealLocres as subprocesses, read the key file and delete files. These are external programs and file-system effects.
- The `__init__` constructor, `normalize_paths` and `load_config` (lines 15-20, 54-57 and 142-166): the configuration is a set of parameters of the model. Reading and parsing the JSON configuration, writing the template file and `exit()` are I/O.
- Reading the CSV (lines 61-66): the rows come in as a sequence of `(key, source)` pairs. `csv.DictReader`'s quoting rules, and the `None` it gives for a missing column, are not modelled.
- `__dump_json_parse` (lines 136-139): a write is recorded as its path and mode only. JSON serialisation with `indent=4` and `sort_keys` is not modelled. `TreeBuilder.BuildRootOrder` gives the key order that `json.dump` writes when `sort_keys` is false.
- The byte handling in `get_game_version` (lines 95-99): hex-encoding the executable, searching for the marker, taking 192 digits, decoding UTF-16-LE and filtering out empty strings are left out. The model starts from the resulting list of strings. A missing marker, which raises an IndexError on line 97, is not modelled. Only too few fields (lines 101-102) is.
- The final `os.remove` of the CSV file (line 76) and the `print`/`input` console I/O (lines 116-117): the user's answer is a parameter.
- The `__main__` block (lines 169-181): it only wires the steps together with fixed paths.
- KeyTree: each Python `dict` is changed in place. The model uses values instead. Every object has exactly one parent, so no aliasing is lost. A failing insertion aborts the whole run, so the objects it already created cannot be observed.
- KeyTree.Insert: Python raises `TypeError` or `AttributeError` when a string is on the path. The model does not tell these apart; both are `LeafOnPath`.
- Text.Replace: stated for a non-empty pattern only. Every call site in the exporter passes a non-empty literal.
- Text.Split: stated for a non-empty separator only. Every call site in the exporter passes a non-empty literal.
- WritePolicy.Lower: lowers ASCII letters only. Python also lowers non-ASCII letters, but no other character lowers to `y`, `e` or `s`, so the yes/no decision does not change.
- Exporter.CsvToJson: the file system is the set of paths that exist when the call starts. The model does not cover concurrent changes to it, or open failures such as a missing directory or a permission error.

# Cisco ASA duplicate object detection, modelled in Dafny

`asa_duplicate_object.py` reads a Cisco ASA firewall configuration and reports
network objects and network object-groups that are defined more than once
under different names with the same contents. Its logic runs in two stages,
and this project models both:

1. **Block extraction** (`create_dict_object`). One pass over the raw configuration
   lines fills two insertion-ordered tables from name to child lines:
   - a line holding `object network` declares an object;
   - a line holding `object-group network` declares an object-group.

   The name is the line's third whitespace-separated token. A line whose
   first token is `description` is not a declaration, and the first
   declaration of a name wins. The child lines come from the configuration
   parser.
2. **Duplicate detection** (`check_dup_object`, and `check_dup_object_group`,
   which is the same code under other names). A nested scan with an
   `already_found` list groups the names of one table whose non-empty bodies
   are equal. Each group is keyed by the first of its names in table order.

Files:

- `text.dfy` (module `Text`): the two string primitives.
  - `Tokens` models Python's `str.split()`. It breaks on exactly the characters
    for which `str.isspace()` holds.
  - `Contains` models `pat in line`.
- `blocks.dfy` (module `Blocks`): the tables. A Python dict keeps insertion
  order, so a table is a sequence of `Entry(name, body)` with pairwise distinct
  names.
- `extract.dfy` (module `Extract`): the extractor.
  - `ExtractBlocks` is the loop, updating the two tables in place.
  - It is proved equal to the specification function `Extract`, a left fold
    of `Step` over the lines.
  - The lemmas state what `Extract` builds.
- `duplicates.dfy` (module `Duplicates`): the detector.
  - `FindDuplicates` is the outer loop and `CollectMatches` the inner loop.
  - `FindDuplicates` is proved equal to the specification function
    `DuplicateGroups`.
  - The lemmas state the partition, ordering and exclusion properties of
    that function.

The configuration parser's `find_children_w_parents` is not part of this
model. It appears as the parameter `childrenOf: string -> seq<string>`: the
children the parser reports for `line` used as a parent pattern. Every
statement about bodies holds for any such function.

The source takes the third token with `pop(2)` and does not check the token
count first. A candidate line with fewer than three tokens therefore raises
an `IndexError` and ends the extraction. The model follows the code here:
such a line yields `Err(TooFewTokens(i))`, where `i` is the index of the
first such line. It is not skipped.

## Model

| member | source | states |
|---|---|---|
| `Text.Tokens` | asa_duplicate_object.py:24 | `line.split()`: every token is non-empty and free of whitespace, and the tokens, concatenated, are the line with all whitespace removed |
| `Text.TokensOfLaidOut` | asa_duplicate_object.py:24 | round trip: splitting a line made of optional leading whitespace, words separated by non-empty runs of whitespace, and optional trailing whitespace (indentation, repeated blanks, the newline `readlines()` keeps) gives back exactly those words, so `Tokens` breaks exactly at whitespace and the third token is the third word |
| `Text.ContainsIff` | asa_duplicate_object.py:20 | `pat in line` holds exactly when `pat` occurs in `line` at some position |
| `Blocks.PositionOf` | asa_duplicate_object.py:29 | the position of the first entry with a given name, or the table length when the name is not a key (`name in objects`) |
| `Blocks.PositionOfName` | asa_duplicate_object.py:29-30 | with unique keys, looking up the name stored at position p finds p again |
| `Extract.ExtractBlocks` | asa_duplicate_object.py:15-39 | the in-place loop over the lines returns exactly `Extract` of the lines: both tables on success, or the error raised at the first malformed candidate line |
| `Extract.ErrorPersists` | asa_duplicate_object.py:24 | once a prefix of the lines has failed, the whole scan fails with that same error, whatever follows |
| `Extract.StepErrors` | asa_duplicate_object.py:20-37 | one line fails exactly when it holds `object network` or `object-group network` and has fewer than three tokens; the error names that line's index |
| `Extract.StepRouting` | asa_duplicate_object.py:20-37 | a line that does not fail changes each table only through `Insert` of the name it declares for that table's kind: an object line never touches the group table, and the key added is the line's third token |
| `Extract.OtherLinesIgnored` | asa_duplicate_object.py:20-37 | a line holding neither marker leaves both tables unchanged |
| `Extract.DescriptionGuard` | asa_duplicate_object.py:26-29 | a line whose first token is `description` adds nothing to either table |
| `Extract.ExtractLast` | asa_duplicate_object.py:18-37 | a successful scan is a successful scan of all lines but the last, followed by `Insert` of the last line |
| `Extract.ExtractErrors` | asa_duplicate_object.py:18-37 | extraction fails if and only if some line is a malformed candidate, and the error reports the first such line |
| `Extract.ExtractFill` | asa_duplicate_object.py:18-37 | a successful scan's table of each kind is the declared names of the lines, with their children, inserted in order |
| `Extract.FillKeys` | asa_duplicate_object.py:29-30 | a table built by inserting declared names has unique keys, and its keys are exactly the declared names |
| `Extract.OriginsAreFirstDecls` | asa_duplicate_object.py:29 | the first-declaration positions are increasing, in range, and are exactly the positions whose name was not declared earlier |
| `Extract.FillTables` | asa_duplicate_object.py:29-30 | the p-th entry of a built table is keyed by the p-th first declaration's name and holds that line's body |
| `Extract.FillFirstWins` | asa_duplicate_object.py:29-30 | in a built table, the body stored under a name is the body of its first declaration |
| `Extract.FillKeyOrder` | asa_duplicate_object.py:29-30 | a built table lists names in the order of their first declarations |
| `Extract.ExtractKeys` | asa_duplicate_object.py:18-37 | after a successful scan, each table's keys are unique and are exactly the names that some line really declares for that kind |
| `Extract.ExtractTables` | asa_duplicate_object.py:18-37 | after a successful scan, entry p of each table comes from the p-th first real declaration of its kind: keyed by that line's third token, holding that line's children |
| `Extract.FirstOccurrenceWins` | asa_duplicate_object.py:29-30 | the body stored under a name is the children of the first line that really declares it; earlier description lines do not count, and later declarations change nothing |
| `Extract.KeyOrder` | asa_duplicate_object.py:29-30 | table keys are ordered by the position of their first real declaration in the input |
| `Duplicates.FindDuplicates` | asa_duplicate_object.py:43-68 | the nested scan with `already_found` returns exactly `DuplicateGroups` of the table |
| `Duplicates.CollectMatches` | asa_duplicate_object.py:52-61 | the inner scan returns the other names with the same non-empty body, in table order, and adds each of them to `already_found` |
| `Duplicates.MatchesIff` | asa_duplicate_object.py:55-59 | a name is matched exactly when the body is non-empty, the name is not the scanned key, and some entry with that name has that body |
| `Duplicates.MatchesOrdered` | asa_duplicate_object.py:52-59 | matched names come in table order |
| `Duplicates.ClaimedIff` | asa_duplicate_object.py:49-51 | the entry the outer scan reaches next is already in `already_found` exactly when an earlier entry has its non-empty body |
| `Duplicates.ClaimedNext` | asa_duplicate_object.py:60-62 | handling an entry adds its own name and the names it matched to `already_found` |
| `Duplicates.ClaimedStable` | asa_duplicate_object.py:51 | an entry that is already found adds nothing to `already_found` |
| `Duplicates.InClaimedIff` | asa_duplicate_object.py:47-62 | the incremental `already_found` agrees with its closed form: the names handled or matched by an earlier entry |
| `Duplicates.ClaimedAfterScan` | asa_duplicate_object.py:52-62 | after the inner scan and the append of the key, `already_found` is right for the next entry |
| `Duplicates.ClaimedAfterSkip` | asa_duplicate_object.py:51 | skipping an entry that is already found leaves `already_found` right for the next entry |
| `Duplicates.GroupsStep` | asa_duplicate_object.py:47-65 | one outer iteration adds a group exactly when the key is not yet found and matched some other name |
| `Duplicates.GroupsShape` | asa_duplicate_object.py:64-65 | each reported group is the group of a representative (the first entry with its body, having at least one match); every representative is reported; groups follow table order |
| `Duplicates.GroupsFrom` | asa_duplicate_object.py:64-65 | each group among the first n entries is the group of a representative before n |
| `Duplicates.GroupsCover` | asa_duplicate_object.py:64-65 | every representative before n has its group reported |
| `Duplicates.GroupsKeyOrder` | asa_duplicate_object.py:64-65 | group keys are in table order and lie before n |
| `Duplicates.GroupsSound` | asa_duplicate_object.py:55-59 | every key is a table name with a non-empty body; every list is non-empty and omits its key; every listed name comes later in the table and has the key's body |
| `Duplicates.GroupsDisjoint` | asa_duplicate_object.py:51-62 | no name appears in two groups, whether as a key or as a listed duplicate |
| `Duplicates.EmptyBodiesExcluded` | asa_duplicate_object.py:55 | a name whose body is empty is neither a key nor listed |
| `Duplicates.GroupsComplete` | asa_duplicate_object.py:47-65 | whenever two names share a non-empty body, the first entry with that body heads a reported group that contains both |
| `Duplicates.GroupsOrdered` | asa_duplicate_object.py:47-65 | keys follow table order, and each group's list follows table order |
| `Duplicates.ScenarioPair` | asa_duplicate_object.py:43-68 | A and B share a body and C does not: the report is the single group A: [B] |
| `Duplicates.ScenarioEmpty` | asa_duplicate_object.py:55 | two names with empty bodies give an empty report |
| `Duplicates.ScenarioTriple` | asa_duplicate_object.py:43-68 | A, B and C share one body: the report is the single group A: [B, C] |

`check_dup_object_group` (asa_duplicate_object.py:72-97) is the same code as
`check_dup_object` under other names. `FindDuplicates` and every
`Duplicates` lemma apply to it unchanged.

## Left out

- `write_to_file` (asa_duplicate_object.py:101-180): writes the report to
  `output.txt` with the current date. The file I/O, the clock and the text
  layout are not modelled.
- `main` (asa_duplicate_object.py:184-201): argument handling, reading the
  configuration file and building the parser object. Not modelled. The raw
  lines are the extractor's input parameter.
- The configuration parser (`CiscoConfParse`) is not part of this model.
  `find_children_w_parents` is the uninterpreted parameter `childrenOf`. Its
  regular-expression and indentation semantics are not modelled.
- Python's `str.split()` is modelled over the characters `str.isspace()`
  accepts. Encodings and byte-level decoding of the file are not modelled.
- The result dict of the detector is modelled as a sequence of
  `Group(key, members)` in insertion order. Its keys are proved distinct
  (`GroupsDisjoint`), so it has the same content as the dict.
- Python 3.7 or later is assumed. Dicts keep insertion order, which the
  tables and the report's order rely on. `str.split()` breaks on the
  Unicode whitespace of `str.isspace()`.

# ADdump-parse in Dafny

`ADdump-parse.py` reads an HTML dump of Active Directory groups. It collects each group's member
rows into a dictionary keyed by the group's display name. It then does three things:

- it lists the groups with their distinct-member counts;
- it lists the members of one group;
- it audits every account's short name (`sAMAccountName`) against a naming convention derived
  from its canonical name (`cn`).

This project models that core as pure functions over immutable data and proves its properties:

| module | models |
|---|---|
| `Ascii` | `str.lower()`, `str.split()` and the substring test `in` |
| `LexOrder`, `Records` | the stored `(cn, sam_name, flags)` tuple and the order `sorted` puts tuples in |
| `GroupStore` | the `user_groups` dictionary and the aggregation loop of `parse_html_file`; the regular-expression matches are input |
| `Naming` | `compare_sam_to_cn`, the formats `first.last` and `fLast` |
| `Audit` | `check_users_for_format`, which partitions rows into flagged and noted accounts |
| `Listing` | `list_unique_groups` and `list_users_in_group`, which return their lines instead of printing them |
| `Sequences`, `Wrappers` | an order-preserving filter and `Option` |

The dictionary is a sequence of `(name, rows)` entries in insertion order, which is the order a
Python `dict` iterates in. `GroupStore.Valid` states what `defaultdict(list)` filled only by
`append` looks like: keys are unique and no key has an empty list.

## Model

| member | source | states |
|---|---|---|
| Ascii.Lower | ADdump-parse.py:81-83 | lower-casing keeps the length and maps each character on its own; the result has no upper-case letter |
| Ascii.LowerIdempotent | ADdump-parse.py:87 | lowering twice is lowering once |
| Ascii.Split | ADdump-parse.py:78 | the tokens are non-empty and space-free, and concatenated they give the non-space characters of the input in order |
| Ascii.SplitJoin | ADdump-parse.py:78 | splitting words joined by single spaces gives the words back |
| Ascii.SplitJoinWith | ADdump-parse.py:78 | for any words and any whitespace runs between them (non-empty between two words, optional before the first and after the last), splitting the joined string gives exactly the words: the tokens are the maximal whitespace-free runs |
| Ascii.SplitCovers | ADdump-parse.py:78 | every string is its tokens joined by such whitespace runs, so with `SplitJoinWith` the tokens are the one word list the string is built from |
| Ascii.Contains | ADdump-parse.py:97 | true exactly when the pattern occurs at some offset of the text |
| LexOrder.StrLtByFirstDifference | ADdump-parse.py:41 | the recursive string order agrees with the first-difference definition: a proper prefix sorts first, otherwise the first differing character decides |
| LexOrder.StrLtTrichotomy | ADdump-parse.py:54 | two strings are equal or ordered one way |
| LexOrder.StrLtTransitive | ADdump-parse.py:54 | the string order is transitive |
| Records.ProjectAll | ADdump-parse.py:32-33 | each capture keeps its columns 0, 2 and 6, in capture order |
| Records.MemberLtTransitive | ADdump-parse.py:54 | the tuple order on `(cn, sam, flags)` is transitive |
| Records.MemberLtTrichotomy | ADdump-parse.py:54 | two tuples are equal or ordered one way |
| GroupStore.Aggregate | ADdump-parse.py:16-35 | the dictionary is valid; its rows under every name are exactly the projected captures of the markers carrying that name, in document order, so markers sharing a name merge; its keys are exactly the names that received a row, so a marker whose table was not found or was empty adds no key; the keys stand in the order of `FirstNames`, the order in which each name first received a row |
| GroupStore.FirstNamesMeaning | ADdump-parse.py:19-33 | the reference key order holds each display name that some marker gives a row to, once, and no other name |
| GroupStore.AggregateNames | ADdump-parse.py:19-33 | processing the markers leaves the keys in first-row order, as a Python `dict` keeps first-insertion order |
| GroupStore.AggregateFromLookup | ADdump-parse.py:19-33 | processing markers appends, under each name, exactly that name's rows from those markers |
| GroupStore.AddMarkerLookup | ADdump-parse.py:24-33 | one marker adds its projected rows under its own name and nothing elsewhere; a marker without a table changes nothing |
| GroupStore.AppendAllLookup | ADdump-parse.py:30-33 | one table's captures are appended in match order under one name |
| GroupStore.AppendLookup | ADdump-parse.py:33 | `append` adds the row at the end of that name's rows and leaves every other name alone |
| GroupStore.AppendNames | ADdump-parse.py:33 | a new name becomes the last key; existing keys keep their places |
| GroupStore.AppendValid | ADdump-parse.py:33 | `append` keeps keys unique and lists non-empty |
| GroupStore.LookupNonEmptyIffKey | ADdump-parse.py:51-53 | in a valid dictionary a name is a key exactly when `get(name, [])` is non-empty |
| GroupStore.LookupAt | ADdump-parse.py:51 | with unique keys, looking up an entry's name gives that entry's rows |
| GroupStore.AllRows | ADdump-parse.py:93-94 | the walk over `user_groups.items()` meets a row exactly when some group stores it |
| GroupStore.AllRowsConcat | ADdump-parse.py:93-94 | walking two dictionaries one after the other meets the first one's rows, then the second one's: the walk goes group by group in key order |
| GroupStore.AggregateWalk | ADdump-parse.py:93-94 | over the aggregated dictionary the walk meets the groups in first-row order, and each group's rows in document order |
| Naming.ExpectedSam | ADdump-parse.py:80-85 | a format yields a name exactly when it is `first.last` or `fLast` and the canonical name has at least two tokens. For `first.last` the name is the lowered first token, a dot, and the lowered last token. For `fLast` it is the lowered initial of the first token followed by the lowered last token |
| Naming.FirstMatch | ADdump-parse.py:79-89 | the first-match loop is true exactly when some listed format yields the lowered short name |
| Naming.CompareSamToCn | ADdump-parse.py:73-89 | the matcher is true exactly when some listed format's expected name equals the lowered short name |
| Naming.MatchNeedsTokensAndFormat | ADdump-parse.py:80-89 | a match needs two tokens and a recognised format; an empty format list never matches |
| Naming.FirstDotLastMatch | ADdump-parse.py:80-81 | under `first.last` alone, a match means the lowered short name is the lowered first and last tokens joined by a dot, and the converse holds |
| Naming.InitialLastMatch | ADdump-parse.py:82-83 | under `fLast` alone, a match means the lowered short name is the lowered initial of the first token followed by the lowered last token, and the converse holds |
| Naming.DerivedFirstDotLastAccepted | ADdump-parse.py:78-88 | `first.last` accepts `first.last` for the canonical name `first last`, in any letter case |
| Naming.DerivedInitialLastAccepted | ADdump-parse.py:78-88 | `fLast` accepts `fLast` for the canonical name `first last`, in any letter case |
| Naming.ExpectedSamFirstAndLast | ADdump-parse.py:81-83 | an expected name depends only on the first and last tokens |
| Naming.MiddleTokensIrrelevant | ADdump-parse.py:78-83 | middle tokens of the canonical name never change the verdict |
| Naming.FormatOrderIrrelevant | ADdump-parse.py:79-89 | the verdict depends only on which formats are listed, not on their order or repetitions |
| Naming.MoreFormatsKeepMatch | ADdump-parse.py:79-89 | adding formats before or after never turns a match into a mismatch |
| Naming.LowerSamSameVerdict | ADdump-parse.py:87 | the comparison ignores the case of the short name |
| Naming.JohnSmithFailsFirstDotLast | ADdump-parse.py:80-81 | `jsmith` for `John Smith` fails `first.last` |
| Naming.JohnSmithPassesInitialLast | ADdump-parse.py:82-83 | `jsmith` for `John Smith` passes `fLast` |
| Naming.JaneDoeFailsFirstDotLast | ADdump-parse.py:80-81 | `j.doe` for `Jane Doe` fails `first.last`, which expects `jane.doe` |
| Audit.CheckUsersForFormat | ADdump-parse.py:91-99 | the audit walks the rows group by group. The flagged rows are, in order with repetitions, those failing the matcher. The noted rows are those passing it that have the non-expiring flag. No row is in both lists, and together they never outnumber the rows |
| Audit.AuditRows | ADdump-parse.py:94-98 | one group's rows extend the flagged and noted lists exactly as the filter definitions do |
| Audit.AuditVerdict | ADdump-parse.py:95-98 | an account is flagged exactly when it is stored and fails, as often as it is stored. It is noted exactly when it is stored, passes and has the flag. It is never both (the `elif`) |
| Audit.AuditBound | ADdump-parse.py:95-98 | flagged plus noted is at most the number of rows |
| Audit.AuditStep | ADdump-parse.py:95-98 | each row extends exactly one of the two lists, or neither |
| Audit.NoFormatsFlagEverything | ADdump-parse.py:91-96 | with no format every row is flagged and none noted |
| Audit.NotedLine | ADdump-parse.py:98 | the noted line is the fixed prefix, the short name, ` (`, the canonical name and `)` |
| Audit.AuditOutput | ADdump-parse.py:97-104 | the noted lines come first, in walk order. The header appears only when something is flagged and is followed by one detailed line per flagged account |
| Records.DetailLine | ADdump-parse.py:104 | the detailed line is the short name, ` (`, the canonical name, `) - Flags: ` and the flags, in that order |
| Listing.DistinctCount | ADdump-parse.py:44 | `len(set(users))` is at most the number of rows and is zero exactly when there are none |
| Listing.DistinctCountSnoc | ADdump-parse.py:44 | appending a row raises the distinct count by one exactly when the row was not stored yet |
| Listing.InOrderTotal | ADdump-parse.py:39-41 | any two group lines are comparable under either sort key |
| Listing.InOrderTransitive | ADdump-parse.py:39-41 | the sort-key order is transitive |
| Listing.InsertSorted | ADdump-parse.py:39-41 | stable insertion keeps the lines in key order, ties in dictionary order, positions distinct |
| Listing.SortItems | ADdump-parse.py:39-41 | the sort returns exactly the dictionary items, in key order, with ties in dictionary order (Python's stable `sorted`, also under `reverse=True`) |
| Listing.ListUniqueGroups | ADdump-parse.py:37-48 | the lines are exactly the dictionary items' `(name, distinct count)` lines, each key once. They are ordered by lowered name, or by count descending under `--sort`. Ties keep dictionary order, and the total is the number of keys |
| Listing.ListedCount | ADdump-parse.py:44 | each listed count is the number of distinct rows stored under that name |
| Listing.SortUnique | ADdump-parse.py:54 | `sorted(set(users))` is strictly increasing and holds exactly the stored rows |
| Listing.StrictlySortedUnique | ADdump-parse.py:54 | a strictly increasing sequence is determined by its elements |
| Listing.SortUniqueIgnoresOrderAndDuplicates | ADdump-parse.py:54 | the member listing depends only on which rows are stored |
| Listing.StrictlySortedCard | ADdump-parse.py:54-55 | a strictly increasing sequence has as many distinct elements as elements |
| Listing.Render | ADdump-parse.py:57-60 | one line per member, each leading with the short name: the short name alone, or the detailed line with `detailed` |
| Listing.ListUsersInGroup | ADdump-parse.py:50-71 | an absent or empty group takes the not-found branch. Otherwise the members are the distinct stored rows in tuple order, as many as the distinct count. Each line is the short name, or with `detailed` the line `sam (cn) - Flags: flags` |
| Listing.GroupCountMatchesMemberListing | ADdump-parse.py:44-55 | in a valid dictionary, the count a group shows in the group listing is the number of lines its member listing prints |

## Behaviour worth noting

The model follows the code in each of these cases:

- **Flagged and noted are exclusive.** The second test is an `elif` (line 97), so a flagged account is never also reported for a non-expiring password.
- **A zero-row group creates no key.** Rows reach the dictionary only through `append` (line 33), so a group whose table is missing or empty creates no key and is not listed.
- **The store keeps duplicates.** A row is stored as often as it is captured. Deduplication happens only when counting (line 44) and when listing members (line 54). The audit reports a duplicated row once per copy.
- **The flag is a substring test.** It checks whether `DONT_EXPIRE_PASSWD` occurs inside the flags field (line 97); the field is not parsed into flags.
- **`j.doe` does not match `Jane Doe` under `first.last`.** The expected name joins the whole first token, lowered, to the last one (line 81), so it is `jane.doe`.
- **An empty format list flags every row.** The guard that skips the audit without formats is in `main` (line 138). `check_users_for_format` itself, given no formats, flags every row.

## Left out

- Reading the file, the two regular expressions and `re.escape`. A group marker's id, display name and table captures are input (`GroupStore.GroupMarker`); `None` stands for a failed table search. Which rows a regular expression would capture is not modelled.
- Printing and file writing. The listings and the audit return their lines. The group line text `name - (count)`, the total line and the member-count line print numbers, and integer-to-text conversion is not modelled; their numbers are the fields `count`, `total` and `|members|`.
- Argument parsing and `main`, apart from the empty-format guard noted above.
- Unicode. `Ascii.Lower` lowers only `A`-`Z`. `Ascii.Split` splits on the ASCII characters Python's `str.split()` treats as whitespace: space, 9-13 and 28-31. Python's Unicode case mapping and its non-ASCII whitespace are not modelled.

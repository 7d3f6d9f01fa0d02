# process_xlog: segment selection and command templating, in Dafny

`process_xlog` works through an archive directory of PostgreSQL write-ahead-log
(WAL) segment files that `pg_receivexlog` fills. It runs a user-supplied shell
command on every segment except the newest one. The receiver resumes streaming
from the newest complete segment (it ignores partial files); processing that one
too would leave it no place to resume, which creates a gap in the WAL.

This project models the decision logic of `main.go`:

- **Segment filter** (`Segments`). A directory entry is a segment exactly when its
  name has 24 characters, each of them `0`-`9` or `A`-`F`. The filter is a loop
  that appends to a result (`FilterNonXlogFiles`). It is proved equal to a
  reference function `Filtered`. The lemmas show that the filter keeps exactly
  the segment names, in listing order, as often as the listing holds them, and
  that filtering twice changes nothing.
- **Segment orderer** (`Order`). The names are sorted in place on an array, using
  byte-wise string order (`LexLessEq`). The sort is proved to produce a sorted
  permutation. That order is proved to be a total order, and the sorted
  arrangement is proved unique. For segment names it is proved to equal the
  numeric order of the hex counter, so the last name is the newest segment.
- **Command templater** (`Template`). `ReplaceFormatVerbs` is the two-state
  scanner with its `percent` flag. It is proved equal to a verb-by-verb
  reference definition `Expand`. The lemmas cover: `%%`, `%p` and `%f`; the
  "unrecognized" and "unterminated" errors and the empty result on error;
  templates without `%`; expansion over concatenation; escaping as an inverse;
  and the fact that success or failure depends on the template alone.
- **Selection and dispatch order** (`Dispatch`). `Produce` is the producer loop
  of `main`. It filters, stops with nothing to do below two segments, sorts,
  expands the template for every segment but the last, and holds the last one
  (the frontier) back. It fails on a bad template before emitting any work item.
  The frontier is proved to be the greatest segment of the listing, and (for a
  listing without repeated names) it is never among the work items.

The directory listing, the path-joining routine and the template are inputs.
A run's result (`RunResult`) is one of three values:

- `NothingToDo`: exit status 0 with no work.
- `TemplateFailed`: the fatal template error.
- `Completed`: the ordered work items (file name and command) plus the frontier.

In a dry run the work items are the "would process" lines and the frontier is the
"would not process" line. In a live run the items' file names are handed to the workers
in this order.

Three facts about the code shape the model:

- The filter keeps the listing's order.
- The code does not check for duplicate names. A directory listing never
  repeats a name, so "the frontier is never dispatched" is proved for listings
  with distinct names (`Distinct`). With a repeated greatest name, the code
  would dispatch one copy of it.
- Live workers run the raw template, not the expanded command. This is listed
  under Findings. The model's work items carry the expanded command.

## Model

| member | source | states |
|---|---|---|
| `Segments.IndexInvalid` | main.go:61-68 | returns -1 exactly when every character is `0`-`9`/`A`-`F`; otherwise returns the index of the first invalid character |
| `Segments.FilterNonXlogFiles` | main.go:53-75 | the loop's result equals the reference filter `Filtered` of the listing |
| `Segments.FilteredMembership` | main.go:56-70 | a name is in the output iff it is in the listing, has length 24 and only upper-case hex digits (lower-case hex and other characters are rejected) |
| `Segments.FilteredAllValid` | main.go:55-72 | every name the filter outputs is a valid segment name |
| `Segments.FilteredCount` | main.go:53-75 | each segment name occurs in the output exactly as often as in the listing, and every other name occurs zero times |
| `Segments.FilteredIsSubsequence` | main.go:54-74 | the output is an order-preserving subsequence of the listing |
| `Segments.FilteredIdempotent` | main.go:53-75 | filtering the filter's output returns it unchanged |
| `Segments.SingletonFiltered` | main.go:55-72 | a one-name listing passes exactly when the name is a segment name |
| `Order.SortXlogFiles` | main.go:77-81 | sorts the caller's array in place: afterwards it is in ascending byte-wise order and a permutation (same multiset) of what it held |
| `Order.LexLessEq` | main.go:78-79 | Go's byte-wise string order used by the sort: a string sorts at or before every string it is a prefix of (the order properties follow in the four lemmas below) |
| `Order.LexReflexive` | main.go:78-79 | the string order used by the sort is reflexive |
| `Order.LexTotal` | main.go:78-79 | any two names are comparable |
| `Order.LexAntisymmetric` | main.go:78-79 | two names each ordered before the other are equal |
| `Order.LexTransitive` | main.go:78-79 | the order is transitive |
| `Order.SortedUnique` | main.go:174 | two sorted sequences with the same multiset of names are equal, so the sorted list is determined by the listing |
| `Order.LastIsGreatest` | main.go:190 | the last element of a sorted sequence is at least every element in it |
| `Order.LexOrderIsNumericOrder` | main.go:150-154 | for equal-length hex-digit names, byte-wise order coincides with the numeric order of the counter, so the last sorted segment is the most recent in the WAL stream |
| `Template.ReplaceFormatVerbs` | main.go:83-111 | the scanner succeeds iff the reference expansion succeeds; then it returns that command, and on failure it returns an empty string and the same error |
| `Template.ErrorMessage` | main.go:103-108 | an unrecognized verb's message names that character between single quotes at a fixed position; the unterminated message quotes nothing |
| `Template.ErrorMessageInjective` | main.go:103-108 | different errors give different messages |
| `Template.ExpandLiteral` | main.go:86-93 | a template without `%` is returned unchanged |
| `Template.ExpandOutcomeIndependent` | main.go:86-110 | success or failure, and the error reported, depend only on the template, never on the path or file name |
| `Template.ExpandConcat` | main.go:86-106 | once a prefix expands on its own, the expansion of prefix+rest is the prefix's command in front of the rest's expansion |
| `Template.DanglingPercent` | main.go:107-108 | appending a lone `%` to an expandable template gives "unterminated format verb" |
| `Template.UnknownVerb` | main.go:103-104 | `%` followed by a character other than `%`, `p`, `f` gives "unrecognized format verb" with that character, whatever follows |
| `Template.EscapeRoundTrip` | main.go:97-98 | doubling every `%` of a string gives a template that expands back to exactly that string |
| `Template.SingleVerbExamples` | main_test.go:23-25 | `%%` gives `%`, `%p` gives the path, `%f` gives the file name |
| `Template.MixedTemplateExample` | main_test.go:26 | `%%%p/%f%%` gives `%`, the path, `/`, the file name and `%`, for any path and file name |
| `Template.ErrorExamples` | main_test.go:27-28 | `%x` fails with "unrecognized format verb 'x'"; `foo %` fails with "unterminated format verb" |
| `Dispatch.Produce` | main.go:155-192 | nothing is done iff fewer than 2 segments; the run fails iff the template does not expand, and then before any item is emitted; otherwise items plus frontier are the sorted segments (sorted, same multiset), each item carries its expanded command, the frontier is the greatest segment of the listing and, with distinct names, is not among the items |
| `Dispatch.ExpandEach` | main.go:175-186 | the loop emits one item per name, in order, each carrying that segment's expanded command; it fails iff there is a name and the template does not expand, and then before emitting any item |
| `Dispatch.FrontierIsGreatest` | main.go:174-175 | the last of the sorted segments is a segment of the listing, at least every segment of it, and absent from the earlier names when the listing has no repeats |
| `Dispatch.LiveRunSameCommand` | main.go:165-168 | as written, a live run hands every segment the same command: for a template `<u>%f<v>` (with `%` in u and v escaped) and two different file names, the worker commands are equal while the expansions `u + f1 + v` and `u + f2 + v` differ |
| `Dispatch.LiveRunIgnoresExpansion` | main.go:165-168 | as written, for template `gzip %p` the dry run shows `gzip <path>` while the worker runs `gzip %p` |
| `Dispatch.ThreeSegmentRun` | main.go:155-192 | three segments among any number (including none) of other entries, in any order: the two older segments become items in ascending order with their expanded commands, and the newest is the frontier |

## Left out

- Flag parsing, the `-j` check, `--help` and the usage text (main.go:20-35, 114-138): command-line plumbing.
- Opening and reading the directory (main.go:140-148): file-system I/O. The listing is an input sequence.
- `processFile` (main.go:37-51): it runs `sh -c`, captures standard error, logs and calls `os.Exit`. These are a foreign process call and process termination.
- The worker goroutines, the buffered channel and the wait group (main.go:161-171, 187-188): concurrency. Only the producer's order of work items is modelled.
- The dry-run flag (main.go:181-183, 191-193): both modes produce the same sequence of file names (live workers run the raw template; see Findings). Printing is I/O and is not modelled.
- `path.Join` (main.go:176): a library routine, passed in as the function `join`.
- `log.Fatal` (main.go:178): modelled as the `TemplateFailed` result; the process exit is not modelled.
- `Template.ErrorMessage`: quotes the verb as `'c'` for every character. Go's `%q` would escape quotes, backslashes and non-printable characters.
- `Order.SortXlogFiles`: a selection sort stands in for Go's library sort. The contract is the same: sorted, and a permutation. Equal strings cannot be told apart, so stability does not matter. Go's function also returns the slice; here the caller's array is sorted in place.
- Strings are sequences of Unicode characters. Go measures `len` in bytes, and its `range` decodes UTF-8, turning invalid bytes into U+FFFD. Neither changes which names the filter keeps: any non-ASCII character is rejected either way, and an all-hex name has as many bytes as characters. In the templater, Go's `range` over the template (main.go:86, main.go:91) turns an invalid UTF-8 byte into U+FFFD in the command; the model's templates are already characters, so that replacement is not modelled. A path or file name holding invalid UTF-8 bytes cannot be represented as a string of characters here.

## Findings

| source | as written | input that shows it | evidently intended | confidence | as-written member | corrected member |
|---|---|---|---|---|---|---|
| main.go:165-168 | each live worker runs `sh -c` on the raw template (`flagSet.Arg(1)`). The expanded command is computed at main.go:176 but only printed in a dry run | template `gzip %p`: the dry run prints `gzip <dir>/<segment>`, but a live run executes `gzip %p` with the verb unexpanded | the worker runs the segment's expanded command, as the usage text (main.go:26-29) and the dry run promise | high; not executed | `Dispatch.LiveRunSameCommand` | `Dispatch.Produce` |

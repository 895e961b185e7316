# AUTOMATE_ISODISTORT: the page parsing and file handling, modelled in Dafny

AUTOMATE_ISODISTORT drives the ISODISTORT and FINDSYM web tools through a
browser. This project models the parts of its two scripts that compute
something, rather than click:

- `read_mode_amplitudes` (find_modes.py) reads the distortion-results page. It
  keeps the values of the amplitude text boxes. It collects the paragraphs
  between the "Enter mode and strain amplitudes:" marker and "Parameters:".
  It drops the marker paragraph and the closing line, and filters out blank
  lines. It checks that the number of component lines matches the number of
  amplitudes. It then builds a dict that maps each irrep label to its info
  (parent, child, OPD) and to its components mapped to amplitudes.
- `transform_basis` (find_modes.py) writes the nine entries of the basis
  matrix, row by row, into form inputs 72 to 80.
- The file handling of symmetrise_cif.py:
  - where the symmetrised CIF goes (`destination + name + "_sym.cif"`, from the
    structure path);
  - which download is moved (the newest by ctime, `os.path.getctime`, which on
    Unix is the last change of the entry's metadata);
  - what the overwrite prompt does with the user's answers.

The browser is replaced by the values it would return:
- the `span1` text boxes, as (name, value) pairs;
- the texts of the `<p>` elements;
- the form inputs, as an array of strings.

The file system is replaced by:
- a flag for whether the downloads directory exists;
- the downloads listing, with the ctime of each entry;
- the set of paths that are regular files (`os.path.isfile`);
- the sequence of answers `input` would return.

Amplitudes are a type parameter: whatever `float` makes of a box's text.

Modules:
- `Strings`: the Python `str` operations the scripts use: `split(sep)`,
  `split()`, `join`, `startswith`, `in`, `lower`, `replace(',', '')` and `str()`
  of an integer.
- `Dicts`: insertion-ordered dicts filled by `update`.
- `FindModes`: the data model and the operations of find_modes.py. The loops
  of `read_mode_amplitudes` are methods, one per loop, each proved equal to a
  specification function. `ReadModeAmplitudes` composes them as the script
  does. `TransformBasis` writes into an array.
- `FindModesProps`: which boxes and paragraphs are used.
- `FindModesResults`: when the parse succeeds, where it raises, and what the
  result dict holds.
- `Symmetrise`: symmetrise_cif.py.

Errors are values. The `Outcome` of `read_mode_amplitudes` is one of:
- the `results` dict;
- `NoModesFound` (the "No modes found!" warning and `None`);
- `CountMismatch` (the count warning and `None`);
- `IndexError` at a named site;
- `MessageUnbound`: the `UnboundLocalError` of the debug print. `DEBUG` is
  `True` (find_modes.py:28), and `msg` is set only by the four-marker chain. When
  paragraph 0 starts with none of the markers, the print of paragraph 0 reads
  `msg` before it exists. Later paragraphs without a marker reuse an earlier
  `msg` and raise nothing.

The `MoveOutcome` of `move_downloaded_file` is one of:
- `DownloadsMissing` (`IOError`);
- `EmptyDownloads` (`ValueError` of `max`);
- `Moved`;
- `Declined` (`FileExistsError`);
- `InputExhausted` (`EOFError`).

## Model

| member | source | states |
|---|---|---|
| FindModes.ReadAmplitudeBoxes | find_modes.py:110-114 | the loop over the text boxes returns exactly `Amplitudes(boxes)`, the values of the boxes with an amplitude name in page order |
| FindModesProps.AmplitudesAreKept | find_modes.py:110-114 | the p-th amplitude is the value of the p-th kept box, and every kept box has a name containing "mode" or "strain" that is neither "modeamplitude" nor "strainamplitude" |
| FindModesProps.KeptIndicesComplete | find_modes.py:113 | a box is kept if and only if its name passes that test |
| FindModesProps.KeptIndicesIncrease | find_modes.py:110-114 | kept boxes are listed in increasing page order |
| Strings.ContainsIff | find_modes.py:113 | `sub in s` holds exactly when sub starts at some position of s |
| FindModes.CollectModeParagraphs | find_modes.py:121-143 | the paragraph loop with the `form_start` flag raises the `UnboundLocalError` of the debug print if and only if paragraph 0 starts with none of the four markers; otherwise it returns exactly `Collected(paragraphs)`, the line-split paragraphs after which the flag is set |
| FindModesProps.MarkersExclusive | find_modes.py:124-135 | no paragraph starts with two of the four markers, so the order of the `elif` chain never matters |
| FindModesProps.NextFlagCases | find_modes.py:124-135 | the start marker sets the flag, "Parameters:" clears it, and every other paragraph leaves it as it was |
| FindModesProps.FlagAfterIff | find_modes.py:120-135 | after a run of paragraphs the flag is set if and only if some paragraph starts with the start marker and no later one starts with "Parameters:" |
| FindModesProps.CollectedRegion | find_modes.py:142-143 | the q-th collected paragraph is `split("\n")` of the q-th paragraph after which the flag is set |
| FindModesProps.RegionComplete | find_modes.py:142-143 | a paragraph is collected if and only if the flag is set after it |
| FindModesProps.RegionIncreases | find_modes.py:121-143 | collected paragraphs keep page order |
| FindModesProps.EndNeverCollected | find_modes.py:133-135 | a "Parameters:" paragraph is never collected |
| FindModesProps.CollectedPrefix | find_modes.py:121-143 | what is collected from the first m paragraphs is a prefix of what is collected from all |
| FindModesProps.NoModesIff | find_modes.py:145-147 | nothing is collected if and only if no paragraph starts with the start marker |
| FindModesProps.FirstCollected | find_modes.py:130-149 | the first collected paragraph, the one `pop(0)` removes, is the first paragraph that starts with the start marker |
| FindModesResults.NonEmptyLinesIff | find_modes.py:152 | `filter(None, l)` keeps exactly the non-empty lines |
| FindModesResults.NonEmptyLinesAppend | find_modes.py:152 | filtering keeps the order of the lines: filtering a concatenation concatenates the filtered parts |
| FindModesResults.NonEmptyLinesOne | find_modes.py:152 | a single line is kept if and only if it is not empty |
| FindModesResults.ModeParagraphLines | find_modes.py:149-152 | mode paragraph k is exactly the filtered lines of collected paragraph k + 1, in order and with their repetitions; only the last mode paragraph loses its last line, and it loses it before the filtering; so its members are the non-empty lines |
| FindModes.Cleanup | find_modes.py:151-152 | the tidied paragraphs are as many as the collected mode paragraphs |
| FindModes.ModeParagraphs | find_modes.py:149-152 | there is one mode paragraph per collected paragraph after the first |
| FindModes.CountComponents | find_modes.py:153-155 | the counting loop returns all lines of the mode paragraphs less one per paragraph |
| FindModes.FillComponents | find_modes.py:178-182 | the inner loop succeeds if and only if the amplitude list reaches position `start + len(mode_components)`, and it then maps the labels, in order, to the amplitudes from `start` on |
| FindModes.Zip | find_modes.py:179-182 | labels are paired with amplitudes position by position |
| FindModes.ReadMode | find_modes.py:161-188 | one turn of the mode loop is `ModeStep`: an `IndexError` for an empty paragraph, for an info line with fewer than four tokens, or for a missing amplitude, and otherwise the irrep label, the entry and the new `last_component` |
| FindModes.BuildResults | find_modes.py:160-188 | the mode loop returns `BuildFrom(modes, amplitudes, 0, 0, [])` |
| FindModes.ReadModeAmplitudes | find_modes.py:105-195 | the whole function returns `ParseResultPage(boxes, paragraphs)` |
| FindModesResults.FirstBad | find_modes.py:161-182 | the first mode paragraph that lacks an info line, an info line of at least four tokens, or its amplitudes; every mode paragraph before it has all three |
| FindModesResults.Entries | find_modes.py:161-188 | there is one entry per mode paragraph, in order |
| FindModesResults.StepAt | find_modes.py:161-188 | at mode k, with `Offset(modes, k)` amplitudes handed out, one turn gives `Entry(modes, amps, k)` and the offset of mode k + 1 when mode k is fine, and otherwise that mode's failure |
| FindModesResults.BuildFromStep | find_modes.py:160-188 | the loop from mode k is one turn, then the loop from mode k + 1 with the updated dict, unless the turn raises |
| FindModesResults.BuildFromTurn | find_modes.py:160-188 | a turn at a fine mode k appends its entry to the entries of the modes before it |
| FindModesResults.BuildFromFail | find_modes.py:160-182 | a turn at a bad mode raises that mode's `IndexError` |
| FindModesResults.BuildFromAt | find_modes.py:160-188 | from mode k on, the loop builds the entries of all modes if every mode is fine, and otherwise raises at the first bad one, with that mode's reason |
| FindModesResults.BuildResultsSpec | find_modes.py:160-188 | for every input, the mode loop ends in `Modes(PutAll([], Entries(...)))` when no mode is bad, and otherwise in the `IndexError` of the first bad mode |
| FindModesResults.OffsetCount | find_modes.py:153-164 | with no empty mode paragraph, the first amplitude of mode k is at the number of components of the modes before it |
| FindModesResults.OffsetMonotone | find_modes.py:164 | `last_component` never decreases |
| FindModesResults.CountCheckGuards | find_modes.py:156-182 | when the counts agree and every mode paragraph has a parsable info line, no amplitude lookup fails |
| FindModesResults.ResultsByLabel | find_modes.py:183-188 | in the result dict each irrep label holds the entry of the last mode with that label, and the labels keep the order of their first mode |
| FindModesResults.ParsePage | find_modes.py:121-195 | all five outcomes: the `UnboundLocalError` if and only if paragraph 0 has no marker; otherwise `None` after "No modes found!" if and only if no paragraph starts with the start marker; the `IndexError` on `[-1]` if and only if the marker's paragraph is the only one collected; `None` after the count warning if and only if the counts differ; the dict if and only if the counts agree and every mode is fine, and then it is the dict of all entries; and with agreeing counts and a bad mode, the `IndexError` of the first bad mode |
| FindModesResults.ParseInfoIrrep | find_modes.py:168 | the irrep label is what follows the last ']' of token 0 |
| FindModesResults.ParseInfoParent | find_modes.py:167 | the parent is what precedes the first '[' of the line |
| FindModesResults.ParseInfoFields | find_modes.py:167-175 | an info line parses if and only if it has at least four tokens; the irrep label is what follows the last ']' of token 0; the parent is what precedes the first '[' of the line; the OPD is token 1; the child is token 3 without commas, then token 2 in parentheses |
| Strings.Split | find_modes.py:143 | `split(sep)` always gives at least one piece |
| Strings.SplitPiecesFree | find_modes.py:143 | no piece of a split holds the separator |
| Strings.JoinSplit | symmetrise_cif.py:103-104 | `sep.join(s.split(sep)) == s` |
| Strings.SplitJoin | symmetrise_cif.py:103-104 | splitting a join of separator-free pieces gives the pieces back |
| Strings.SplitCount | symmetrise_cif.py:103-104 | a split has two or more pieces if and only if the separator occurs |
| Strings.SplitAtLast | symmetrise_cif.py:103-104 | the string is the join of all pieces but the last, the separator, and the last piece |
| Strings.SplitHead | find_modes.py:167 | `s.split(sep)[0]` is the prefix of s before the first separator |
| Strings.SplitLast | find_modes.py:168 | `s.split(sep)[-1]` is the suffix of s after the last separator |
| Strings.Tokens | find_modes.py:168-171 | `split()` gives non-empty tokens without whitespace |
| Strings.TokensAtSpace | find_modes.py:168-171 | whitespace separates tokens: splitting at a whitespace character concatenates the token lists of the two sides |
| Strings.TokensOfWord | find_modes.py:168-171 | a word without whitespace is a single token |
| Strings.TokensOfSpaces | find_modes.py:168-171 | a string of whitespace has no tokens |
| Strings.RemoveAll | find_modes.py:169 | `replace(',', '')` leaves no comma and never lengthens the text |
| Strings.RemoveAllKeeps | find_modes.py:169 | exactly the characters other than the comma remain |
| Strings.RemoveAllOne | find_modes.py:169 | a single character is kept if and only if it is not the comma |
| Strings.RemoveAllAppend | find_modes.py:169 | removing from a concatenation removes from each part, so the kept characters keep their order and their number |
| Strings.Lower | symmetrise_cif.py:37-40 | `lower()` keeps the length |
| Strings.NatText | find_modes.py:87 | the decimal text of a natural number is a non-empty digit string with no leading zero |
| Strings.IntText | find_modes.py:87 | the text of an integer starts with '-' if and only if it is negative, and the digits after it are non-empty and lead with '0' only for zero |
| Strings.NatTextValue | find_modes.py:87 | the decimal text of a natural number reads back as that number |
| Strings.IntTextValue | find_modes.py:87 | the text numpy makes of an integer entry reads back as that integer |
| Dicts.PutFacts | find_modes.py:180-188 | `update` sets the key, leaves every other key as it was, and adds the key at the end only when it is new |
| Dicts.PutAllSnoc | find_modes.py:180-182 | updating with one more pair is one more `update` |
| Dicts.GetPutAll | find_modes.py:180-188 | after the updates a key holds the value of its last pair, or its old value when no pair has that key |
| Dicts.LastWithIff | find_modes.py:180-188 | the last pair with key k is the one that no later pair with key k follows |
| Dicts.LastWithNone | find_modes.py:180-188 | no pair has key k if and only if there is no last pair with key k |
| Dicts.KeysGet | find_modes.py:180-188 | a key is listed if and only if the dict holds a value for it |
| Dicts.PutAllDistinct | find_modes.py:180-188 | updates never list a key twice |
| Dicts.PutAllKeys | find_modes.py:180-188 | the keys of a dict built by updates are in the order of their first pair |
| Dicts.FirstOccurrencesHas | find_modes.py:180-188 | a key is among the first occurrences if and only if some pair has it |
| FindModes.Flatten | find_modes.py:87 | `flatten()` gives nine entries |
| FindModes.FlattenRowMajor | find_modes.py:87 | entry (r, c) is at position 3r + c of the flattened matrix |
| FindModes.TransformBasis | find_modes.py:85-103 | it succeeds if and only if input 80 exists; when the 'specify basis as' input 71 exists, input 72 + i receives the text of flattened entry i whenever input 72 + i exists; no other input changes |
| FindModes.CellOfEntry | find_modes.py:87-97 | matrix entry (r, c) is in input 72 + 3r + c |
| Symmetrise.DestinationSplit | symmetrise_cif.py:103 | the destination plus the file name is the path when it has a '/'; without a '/' the destination is "/" and the file name is the path; the file name holds no '/' |
| Symmetrise.StrNameSplit | symmetrise_cif.py:104 | the name is everything before the last '.' of the file name, with earlier dots kept, and it is empty when the file name has no '.' |
| Symmetrise.TargetReplacesExtension | symmetrise_cif.py:103-104 | for a path with a directory and an extension, the target is the path with its extension replaced by "_sym.cif" |
| Symmetrise.Newest | symmetrise_cif.py:30 | `max(..., key=getctime)` picks an entry with the latest ctime, and no earlier entry has that ctime |
| Symmetrise.FirstReply | symmetrise_cif.py:35-45 | the first yes or no from position i on, with every answer before it neither; or none, when no answer is either |
| Symmetrise.MoveDownloadedFile | symmetrise_cif.py:22-47 | the move, including its prompt loop, ends in `MoveSpec(...)`, and the files afterwards are those before with the source renamed to the target when the outcome is a move |
| Symmetrise.MoveCases | symmetrise_cif.py:26-46 | `IOError` if and only if the downloads directory is missing; `ValueError` if and only if it is empty; a move is from a newest file to `destination + name + "_sym.cif"`; an absent target is moved to without a question; running out of input means no answer was a yes or a no |
| Symmetrise.MoveDecision | symmetrise_cif.py:33-45 | when the target exists, the first answer that is a yes (in any case) moves the file, and the first that is a no raises `FileExistsError`; all invalid answers before it are skipped |
| Symmetrise.SymmetriseUsingFindsym | symmetrise_cif.py:100-126 | the workflow's file handling is the move to the destination and name derived from the structure path |

## Left out

- The browser: all Selenium calls, waits, tab switching and `driver.quit()`. Their results are inputs.
- `wait_for_page_load`, `webdriver_setup`, `upload_struct` and `file_check`: they are browser I/O, or file-system checks on the input structure.
- The `OK_button_3` lookup and click in `transform_basis`, and the `OK_button` clicks elsewhere: these are browser I/O.
- File-system calls (`os.path.isdir`, `glob`, `getctime`, `isfile`, `os.rename`) and `time.sleep`. Their results are inputs, and the rename is the returned set of paths.
- `Symmetrise.MoveDownloadedFile` takes the downloads listing as given. The model does not capture which names `glob(dir + "*")` matches, such as hidden files.
- The text of an amplitude box is never converted: `float(ap_value)` and its `ValueError` are not modelled. The amplitude is the value of the box.
- A text box whose `name` attribute is missing (`None`, so the `in` test raises) is not modelled; names are strings.
- `Strings.Lower` and `Strings.Tokens` are ASCII only: Unicode case mapping and Unicode whitespace are not modelled.
- `FindModes.TransformBasis` takes a matrix of integers; numpy's text for non-integer entries is not modelled.
- Printing, `pprint` and the warning messages: only their effect on the result is modelled. A warning followed by `return None` is the `NoModesFound` or `CountMismatch` outcome. The debug print of a paragraph is modelled only where it raises (`MessageUnbound`); what it prints is not.
- The summary paragraphs ("Space Group:", "Subgroup:"): they are split and stored, but never used, so only their effect on the flag is modelled.
- The `__main__` blocks of both scripts and the batch loop of symmetrise_cif.py: they drive the functions above and format file names from floats.

# GlusterFS volume automation, modelled in Dafny

`automate_glusterfs_volumes.py` rewrites Docker stack files so that their named
volumes use the GlusterFS volume driver. For each stack file it:

- converts every volume whose name passes `is_valid_volume` with
  `convert_volume_to_glusterfs`;
- writes the converted stack to a temporary copy and reads it back;
- collects the copy's leading comment lines and its dynamic values
  (`${...}` placeholders, plus `secrets` and `configs` markers);
- puts a summary comment block at the top of the document;
- moves `version`, `services`, `volumes` and `networks` to the front.

This project models that core as pure functions over immutable data and proves
what each step promises.

- `text.dfy`, module `Text`: the parts of Python's `str` the script uses.
  - `join` and `split`.
  - Literal search, as `re.search` does with a pattern that has no special
    characters.
  - `splitlines`, with Python's full set of line-break characters.
  - `strip`.
  - Code-point ordering, and `sorted` on a set of strings.
- `yaml.dfy`, module `Yaml`: a parsed YAML value.
  - A mapping is an insertion-ordered list of `(key, value)` entries, as
    ruamel's `CommentedMap` is.
  - Lookup, assignment and `move_to_end(key, last=False)` are defined on that
    list. Assigning to an existing key keeps its position; a new key is
    appended.
- `volumes.dfy`, module `Volumes`: `is_valid_volume`, `voluri`,
  `convert_volume_to_glusterfs`, and the loop over the `volumes` section.
  - The exceptions the rewrite can raise become `Result.Err`. None of them is
    caught in the script, so each one ends the whole run.
- `dynamic_values.dfy`, module `DynamicValues`: `scan_for_dynamic_values`.
  - `re.findall` with `\$\{[A-Z0-9_:-]+\}` is a hand-written scanner.
- `comments.dfy`, module `Comments`: `extract_existing_comments`, and the
  comment block built in `copy_stack_file_with_comments`.
- `reorder.dfy`, module `Reorder`: `rearrange_stack_content`.
- `pipeline.dfy`, module `Pipeline`: `process_stack_file` followed by
  `copy_stack_file_with_comments` for one file.
  - The YAML parser and emitter are the parameters `load` and `dump`.

The cluster settings are a `Cluster` value: the node list and the base path.
`DefaultCluster` holds the script's values.

The annotation pass does not read the original file. `process_stack_file`
writes the converted stack to the temporary copy and passes that copy to
`copy_stack_file_with_comments` as its source (lines 198-209). So the leading
comments and the dynamic values come from the emitter's text of the converted
document. `Pipeline.ProcessStackFile` follows the code.

## Model

| member | source | states |
|---|---|---|
| `Volumes.NameMatchLength` | automate_glusterfs_volumes.py:33 | the greedy match of `[A-Za-z0-9-_]+` at the start of a name is the longest run of class characters there: every matched character is in the class, and the next one (if any) is not |
| `Volumes.IsValidVolume` | automate_glusterfs_volumes.py:50-52 | a name is valid exactly when it is non-empty and its first character is a letter, digit, `-` or `_`; the match is anchored at the start only, so the rest of the name is never looked at |
| `Volumes.VolUriShape` | automate_glusterfs_volumes.py:57 | with comma-free nodes and base path, `voluri` has exactly one comma fewer than there are nodes, and splitting it at the commas gives `node:base` for each node, in node order |
| `Volumes.DefaultVolUri` | automate_glusterfs_volumes.py:31-32 | with the script's three nodes and `/data/gluster`, `voluri` is the three `node:/data/gluster` segments joined by commas |
| `Volumes.GlusterOptionsLaws` | automate_glusterfs_volumes.py:75-77 | after the three option assignments, `voluri`, `replicate` and `read-only` have the cluster's values; the existing option keys keep their positions and exactly the missing ones of `voluri`, `replicate`, `read-only` are appended, in that order; every other option keeps its value and relative order; distinct keys stay distinct |
| `Volumes.ConvertVolumeLaw` | automate_glusterfs_volumes.py:55-80 | conversion fails exactly when the configuration, or its existing `driver_opts`, cannot be made a mapping, and says which; otherwise the result has driver `glusterfs` and the three options; the old keys keep their positions and exactly the missing ones of `driver`, `driver_opts` are appended, in that order; every other key keeps its value and relative order; distinct keys stay distinct |
| `Volumes.ConvertOptionsLaw` | automate_glusterfs_volumes.py:69-78 | for a conversion that succeeds, inside `driver_opts` the old option keys keep their positions and exactly the missing ones of `voluri`, `replicate`, `read-only` are appended, in that order; every other option keeps its value and relative order; distinct keys stay distinct |
| `Volumes.ConvertNull` | automate_glusterfs_volumes.py:60-61 | a `None` configuration becomes a mapping with only `driver` and `driver_opts`, and the options hold only `voluri`, `replicate` and `read-only`, in that order |
| `Volumes.ConvertDriverOnly` | automate_glusterfs_volumes.py:68 | a configuration whose only key is `driver` converts as `None` does: the old driver is overwritten in place |
| `Volumes.ConvertedIsFixed` | automate_glusterfs_volumes.py:75-78 | a configuration that already has the GlusterFS driver and the cluster's three options converts to itself |
| `Volumes.ConvertIdempotent` | automate_glusterfs_volumes.py:55-80 | converting a converted configuration again changes nothing |
| `Volumes.ConvertEntries` | automate_glusterfs_volumes.py:190-196 | the loop succeeds exactly when every valid entry can be converted; on success the names and their order are kept, each valid entry holds its converted configuration, and each invalid entry is untouched |
| `Volumes.ConvertEntriesIdempotent` | automate_glusterfs_volumes.py:193-196 | running the loop over a section it already rewrote gives that section back |
| `Volumes.RewriteVolumesLaw` | automate_glusterfs_volumes.py:188-196 | a stack without `volumes` is untouched; on success, the top-level keys, their order and every entry except `volumes` are kept; a `volumes` mapping has exactly its valid entries converted, and the rewrite fails exactly when one of them cannot be; an empty string or list is iterated as nothing; any other value raises |
| `Volumes.RewriteVolumesWellFormed` | automate_glusterfs_volumes.py:188-196 | the rewrite of a document the loader can build is again one: no mapping at any depth gains a duplicate key, and only strings and mappings are added |
| `Volumes.RewriteVolumesIdempotent` | automate_glusterfs_volumes.py:188-189 | rewriting a rewritten stack changes nothing |
| `Volumes.RewriteExample` | automate_glusterfs_volumes.py:190-195 | `volumes: {data1: {driver: local}}` becomes `data1` with driver `glusterfs` and options `voluri` (the three nodes), `replicate: "3"`, `read-only: "false"` |
| `Yaml.Lookup` | automate_glusterfs_volumes.py:69 | a key is found exactly when it is among the mapping's keys, and the value found is one stored under it |
| `Yaml.LookupFirst` | automate_glusterfs_volumes.py:69 | the value found is the one at the key's first occurrence |
| `Yaml.AssignLaws` | automate_glusterfs_volumes.py:78 | after `m[k] = v`, `k` maps to `v` and every other key maps to what it did; an existing key keeps its position and a new key goes to the end; the other entries keep their order; keys stay distinct; assigning the value a key already has changes nothing |
| `Yaml.AssignPrefix` | automate_glusterfs_volumes.py:68 | assignment keeps the existing keys as a prefix, and anything past the old end is the assigned key |
| `Yaml.MoveToFront` | automate_glusterfs_volumes.py:120 | `move_to_end(k, last=False)` keeps the same entries and the value of every key; with distinct keys, the result is `k`'s entry followed by every other entry in its original order |
| `Reorder.MoveKeysToFront` | automate_glusterfs_volumes.py:118-120 | the loop of moves keeps the same entries and the value of every key, and keeps keys distinct |
| `Reorder.MoveKeysToFrontLaw` | automate_glusterfs_volumes.py:118-119 | moving a list of keys to the front in reverse order leaves those keys first, in list order, followed by every other entry in its original order |
| `Reorder.Rearrange` | automate_glusterfs_volumes.py:111-116 | the rearranged stack is a permutation of the stack, with every key keeping its value and no key added or removed |
| `Reorder.RearrangeLaw` | automate_glusterfs_volumes.py:111-122 | the result is whichever of `version`, `services`, `volumes`, `networks` are present, in that order, then every other entry in its original relative order |
| `Reorder.RearrangeWellFormed` | automate_glusterfs_volumes.py:111-122 | rearranging a document the loader can build gives one again |
| `Reorder.RearrangeIdempotent` | automate_glusterfs_volumes.py:113-121 | rearranging a rearranged stack changes nothing |
| `DynamicValues.MatchLength` | automate_glusterfs_volumes.py:41 | a match found at a position is a whole placeholder: `${`, one or more of `[A-Z0-9_:-]`, `}` |
| `DynamicValues.FindAllLaw` | automate_glusterfs_volumes.py:85 | the non-overlapping `findall` scan misses nothing and finds nothing else: its set is exactly the placeholders that occur in the text |
| `DynamicValues.ScanDynamicValuesLaw` | automate_glusterfs_volumes.py:83-97 | the result is exactly: every placeholder that occurs, `secrets` when `secrets:` occurs, `configs` when `configs:` occurs; `${VOLUME_PATH}` is itself a placeholder, so its separate search adds nothing |
| `DynamicValues.ScanNoLineBreak` | automate_glusterfs_volumes.py:88-95 | every scanned value fits on one line, so each becomes exactly one line of the block |
| `Comments.CommentLineIff` | automate_glusterfs_volumes.py:104 | a line counts as a comment exactly when its first non-whitespace character is `#` |
| `Comments.LeadingComments` | automate_glusterfs_volumes.py:102-107 | the result is a prefix of the lines, every line of it is a comment line, and the line after it, if any, is not |
| `Comments.ExtractExistingComments` | automate_glusterfs_volumes.py:100-108 | the result is a prefix of the text's `splitlines`, all comment lines, stopped by the first non-comment line |
| `Comments.LeadingCommentsUnique` | automate_glusterfs_volumes.py:105-107 | the comment prefix is the only prefix with those three properties |
| `Comments.ExtractFromTerminated` | automate_glusterfs_volumes.py:103-106 | from text whose first lines are comments followed by a non-comment line, the extraction returns exactly those comments |
| `Comments.BlockLinesLaw` | automate_glusterfs_volumes.py:146-151 | the block lines are the header, then `# - v` for each value in strictly ascending order, each value once, or `# None found` alone when there are none |
| `Comments.BlockLinesAreComments` | automate_glusterfs_volumes.py:149 | every line of the block is itself a comment line |
| `Comments.CommentBlockLines` | automate_glusterfs_volumes.py:147-151 | read back line by line, the block text is exactly its lines: one per value, with nothing split or merged |
| `Comments.CombinedCommentsLines` | automate_glusterfs_volumes.py:154 | read back line by line, the combined comment is the existing comment lines, or one empty line when there are none, followed by the block's lines |
| `Comments.CommentBlockExample` | automate_glusterfs_volumes.py:148-149 | with `${FOO_BAR}` and `secrets` found, the block lists exactly those two, `${FOO_BAR}` first |
| `Comments.SortExample` | automate_glusterfs_volumes.py:148 | `sorted` puts `${FOO_BAR}` before `secrets` |
| `Text.SortSet` | automate_glusterfs_volumes.py:147-148 | `sorted` on a set gives each element once, in strictly ascending code-point order |
| `Text.SortSetUnique` | automate_glusterfs_volumes.py:148-149 | any strictly ascending listing of a set is the sorted one, so the block's order is fully determined |
| `Text.SplitTerminated` | automate_glusterfs_volumes.py:103 | `splitlines` gives back the lines of a text in which each line ends with a newline |
| `Text.ContainsIff` | automate_glusterfs_volumes.py:88-94 | the literal search succeeds exactly when the pattern occurs somewhere in the text |
| `Pipeline.ProcessWritten` | automate_glusterfs_volumes.py:172-209 | if the emitter's text parses back to the same document for every document the loader could build, a file that parses and converts is written with its converted document in canonical order, and with a start comment whose lines are the converted text's leading comments (or one empty line) followed by the block of that text's dynamic values |
| `Pipeline.FixedByVolumesEntry` | automate_glusterfs_volumes.py:188 | whether the rewrite leaves a stack alone depends only on the stack's `volumes` entry |
| `Pipeline.ReprocessFixedPoint` | automate_glusterfs_volumes.py:125-169 | under the same round-trip assumption, processing a written document again gives the same document: its volumes are converted already, and it is in canonical order |
| `Pipeline.AnnotationExample` | automate_glusterfs_volumes.py:143-151 | a text where `${FOO_BAR}` is the only placeholder, `secrets:` occurs and `configs:` does not gets exactly the lines `# - ${FOO_BAR}` and `# - secrets` under the header |

## Left out

- File and directory I/O is left out: `open`, `os.listdir`, `os.makedirs`, `create_destination_directory`, `process_all_stack_files` and the `.yml` filter. It is plumbing around the per-file logic; `Pipeline.ProcessStackFile` covers one file.
- Logging, the log file name with its timestamp, and the final `print` are left out. They are side effects with no effect on the output.
- The ruamel.yaml parser and emitter are the parameters `load` and `dump` of `Pipeline.ProcessStackFile`. Quote preservation, indentation, line width and the emitter's text are not modelled.
- The document model carries no comments. The round-trip loader keeps the input's leading comments on the root mapping, and `yaml.dump` writes them into the temporary copy (lines 181-202). The model's `dump` sees only entries, so `Pipeline.ProcessWritten` ties the start comment to the leading comment lines that `dump` emits, not to the comments of the input file.
- `yaml_set_start_comment` is left out. The start comment is the string in `Outcome.Written`; how the emitter renders it is not modelled.
- Write failures of the temporary copy and of the final file (lines 204-206, 167-169) are left out; they are I/O errors.
- `Pipeline.ProcessWritten` and `Pipeline.ReprocessFixedPoint` assume `Pipeline.RoundTrip`: `load(dump(d))` gives back `d` for every document the loader could have built. Such a document holds no key twice in any mapping, at any depth, and its non-string scalars are texts the loader reads back as non-strings (the parameter `plain`). The model cannot see the YAML library, so it cannot prove this; it does prove that the rewrite and the reordering keep a document in that class.
- A document root that is not a mapping is left out. An empty file loads as `None`: the volume step skips it, and `yaml_set_start_comment` on `None` raises at line 157. A list root raises at line 189 (`stack['volumes']`) when it holds the string `volumes`, and otherwise at line 116 (`stack.keys()`), since a list accepts the start comment.
- Mapping keys that are not strings are left out. So are YAML anchors and aliases, which let one mapping object be shared and mutated in place from two places.
- Scalars other than strings, such as numbers, booleans and dates, are one case, `Scalar`. `dict()` rejects all of them alike.
- `Volumes.AsMapping`: `CommentedMap(x)` on a non-empty list of key/value pairs builds a mapping in Python. The model treats that case as a failure (`ConfigNotMapping` or `DriverOptsNotMapping`), as it does every other non-mapping value except `""` and `[]`.
- Exceptions other than those the volume rewrite raises are left out.

## Notes

- `is_valid_volume` uses `re.match`, which anchors the match at the start only, so a name such as `ab$%` is accepted. The model keeps that behaviour (`Volumes.IsValidVolume`).
- When a file has no leading comments, the combined comment starts with an empty line, because `"\n".join([])` is empty and a `"\n"` follows it. `Comments.CombinedCommentsLines` states this.

# proto_tag: the `tag` plugin of protoc-gen-go, modelled in Dafny

`tag.go` adds struct tags to the Go code that protoc-gen-go generates. A
`.proto` author writes the tag as a trailing comment on a field, for example
`string name = 1; // valid:"required"`. The plugin works in two stages and is
called once per compiled file:

1. **Harvest.** It walks the top-level messages of the file and the messages
   declared directly inside them. For every field it finds the field's
   trailing comment in the file's source-code-info table and stores it in the
   table `comments[message name][field name]`. It finds the comment by exact
   equality of descriptor paths: `[4, i]` for top-level message i,
   `[4, i, 3, j]` for message j nested in it, and the message path followed by
   `[2, k]` for field k. A field without a comment gets `valid:"-"`.
2. **Rewrite.** It makes one forward pass over the lines of the generated stub
   and carries two variables: "inside a block comment" and "the struct being
   tagged". A header `type X struct {` starts tagging only when `X` has an
   entry in the table. A line whose trimmed text starts with `}` stops it.
   Every other line of a tagged struct gets `" " + comments[X][toLowerFirst(field)]`
   spliced in before its closing backtick. Every output line is followed by a
   newline, and one more newline ends the stub.

The project has six modules:

- `GoStrings` (`go_strings.dfy`): the ASCII behaviour of `strings.TrimSpace`,
  `HasPrefix`, `Contains` and `ToLower`.
- `Descriptor` (`descriptor.dfy`): messages, fields and source locations as
  datatypes; the descriptor field numbers 4, 3 and 2; `DEFAULT_TAG`; and the
  comment table.
- `Names` (`names.dfy`): two hand-written matchers. One stands in for
  `type (.+) struct {`, the other for `\t(.+)\t.+\t.+`. Each is specified as
  Go's regexp reports a match: the leftmost start, then the longest greedy
  capture. The module also holds `toLowerFirst` and `insertTag`.
- `Harvester` (`harvest.dfy`):
  - `isSamePath` and `getTrailingComment` as methods with their scanning
    loops, proved against specification functions;
  - `addFieldComment` and the traversal of the harvest loop as functions on
    the table;
  - the lemmas that say which entries the harvest creates and what they hold.
- `Rewrite` (`rewrite.dfy`): the rewrite loop as a method with the two state
  variables, proved against a per-line state machine (`Next`/`Step`), with
  lemmas about the states and the lines written.
- `Plugin` (`plugin.dfy`): class `Tag`, with the fields `file` and `comments`
  that the Go object updates; `Init`, `addFieldComment` and `Generate` as
  methods; and end-to-end lemmas that link a harvested comment to the output
  line.

Points of `tag.go` worth noting:

- The inner key of the table is the field name as the descriptor gives it.
  `toLowerFirst` is applied only to the name read back from the Go line
  (tag.go:140, tag.go:119), not to the stored key.
- A field line whose lookup key is missing gets the empty string, Go's zero
  value, and not `valid:"-"`. The line then gains a lone space before its
  backtick (tag.go:119-120; `Rewrite.MissingEntryGivesLoneSpace`). This
  happens whenever the lower-cased-first Go name differs from the descriptor
  name, for example a descriptor name with an underscore.
- A line that closes a block comment leaves the tracked struct as it was, so
  tagging resumes after the comment (tag.go:79-84; `Rewrite.CommentKeepsStruct`).
- The table is created once in `Init` and never cleared. It accumulates
  entries from one `Generate` call to the next (`Harvester.HarvestKeys`).
- A message with no fields never gets an entry (tag.go:137-140;
  `Harvester.FieldCommentsKeys`). Within one addFieldComment call, on a
  repeated field name the later field's tag wins (`Harvester.FieldCommentsLast`).
  The harvest-level entry lemmas assume distinct message and field names.
- The harvest keys a nested message by its simple name (`Inner`), while
  protoc-gen-go writes its struct header as `type Outer_Inner struct {`. So the
  header of a nested message's struct never names the harvested entry, and
  nested messages' tags reach the stub only when some top-level struct shares
  the simple name. A stub none of whose headers names a key of the table is
  copied unchanged (`Rewrite.UnknownStructsUnchanged`).

## Model

| member | source | states |
|---|---|---|
| GoStrings.TrimSpace | tag.go:149 | The result is the slice of `s` between its leading and its trailing white space: only white space precedes and follows it in `s`, and it neither starts nor ends with white space. It is empty exactly when `s` is all white space. |
| GoStrings.ContainsIffOccurs | tag.go:79 | `Contains(s, sub)` holds exactly when `sub` occurs in `s` at some offset. |
| Harvester.IsSamePath | tag.go:160-181 | The loop returns true exactly when the paths have the same length and agree element by element, that is, when they are equal. Paths of different lengths give false; the relation is reflexive and symmetric. |
| Harvester.TrailingComment | tag.go:146-157 | The tag is never empty. When no location carries the path with a non-blank comment, it is `valid:"-"`. Otherwise it is the trimmed comment of the first such location in table order. |
| Harvester.GetTrailingComment | tag.go:146-157 | The early-exit scan over the locations returns exactly `TrailingComment(path, locations)`. |
| Harvester.TrailingCommentNoDollar | tag.go:146-157 | When no trailing comment holds `$`, the tag holds none either, the default included. |
| Harvester.FieldCommentsOthers | tag.go:130-142 | Storing one message's tags leaves every other message's entry as it was, present or absent. |
| Harvester.FieldCommentsKeys | tag.go:137-140 | After addFieldComment, the message has an entry exactly when it had one before or it has a field. The entry's keys are its old keys plus the message's field names. |
| Harvester.FieldCommentsLast | tag.go:133-140 | The entry of a field name is the tag found at `path + [2, k]`, where k is the last field with that name. |
| Harvester.FieldCommentsKept | tag.go:137-140 | Old keys of the entry that are not field names of the message keep their values. |
| Harvester.AddFieldCommentsEntry | tag.go:130-142 | When field names are distinct, field k is stored with the tag found at `path + [2, k]`. |
| Harvester.FieldCommentsNoDollar | tag.go:130-142 | When neither the table nor the trailing comments hold `$`, addFieldComment keeps the table free of `$`. |
| Harvester.JobsExactly | tag.go:43-53 | The harvest calls addFieldComment for exactly two kinds of message. One is top-level message i at `[4, i]`. The other is message j nested directly in it at `[4, i, 3, j]`. |
| Harvester.JobPaths | tag.go:44-47 | Every path passed to addFieldComment has length 2 or 4 and starts with 4. Its third element, when it has one, is 3. So a message nested two levels deep is never visited. |
| Harvester.ApplyJobsKeys | tag.go:43-53 | After a run of calls, the table's keys are the old keys plus the names of the called messages that have fields. |
| Harvester.ApplyJobsEntry | tag.go:43-53 | With distinct names, field k of the message of call t holds the tag at that call's path followed by `[2, k]`. |
| Harvester.ApplyJobsNoDollar | tag.go:43-53 | The harvest keeps a `$`-free table `$`-free, given `$`-free trailing comments. |
| Harvester.HarvestKeys | tag.go:36-53 | After one harvest, the keys are the previous keys plus the names of the visited messages that have fields. The table accumulates across files. |
| Harvester.ApplyJobsOthers | tag.go:43-53 | A message that no call with fields names keeps its entry, or its absence, through a run of calls. |
| Harvester.HarvestOthers | tag.go:36-53 | A message the harvest does not store keeps its old entry, or its absence: entries from earlier files survive. |
| Harvester.HarvestTopLevelField | tag.go:43-53 | With distinct names, field k of top-level message i holds the tag found at `[4, i, 2, k]`. |
| Harvester.HarvestNestedField | tag.go:46-50 | With distinct names, field k of message j nested in top-level message i holds the tag found at `[4, i, 3, j, 2, k]`. |
| Names.StructName | tag.go:183-191 | The result is "" exactly when `type (.+) struct {` does not match. Otherwise it is the capture of the match Go reports: the leftmost start with the longest capture. |
| Names.StructNameOfHeader | tag.go:183-191 | For any non-empty name, the header `type <name> struct {` yields that name. |
| Names.PersonHeader | tag.go:183-191 | `type Person struct {` yields `Person`. |
| Names.FieldName | tag.go:193-201 | The result is "" exactly when `\t(.+)\t.+\t.+` does not match. Otherwise it is the capture of the leftmost, longest match. |
| Names.FieldNameOfDeclaration | tag.go:193-201 | A line of tab, name, tab, type, tab and tag yields the name, when the type and the tag hold no tab. |
| Names.PersonNameField | tag.go:193-201 | The line `\tName\tstring\t` followed by a backtick-quoted `json:"name"` yields `Name`. |
| Names.ToLowerFirst | tag.go:204-214 | Length is preserved and "" maps to "". Only the first character is lower-cased; the rest is unchanged. |
| Names.ToLowerFirstIdempotent | tag.go:204-214 | Applying toLowerFirst twice is the same as applying it once. |
| Names.ToLowerFirstFixed | tag.go:204-214 | A name is its own lookup key exactly when it is empty or does not start with an upper-case letter. |
| Names.InsertTagRoundTrip | tag.go:217-222 | Taking `" " + tag` back out of a tagged line gives the original line, and the line grows by the tag's length plus one. A line not ending with a backtick is unchanged. |
| Names.InsertTagShape | tag.go:217-222 | A tagged line keeps everything before the original backtick. It grows by the tag's length plus one and still ends with a backtick. |
| Rewrite.RewriteStub | tag.go:56-122 | The loop, with its `continue` branches, writes each rewritten line of `RewriteLines` followed by a newline, then one final newline. |
| Rewrite.OutLineVerbatimUnlessTagged | tag.go:73-121 | Lines in or opening a block comment, lines outside a tracked struct (headers included) and closing-brace lines are copied verbatim. Only the other lines of a tracked struct pass through insertTag. |
| Rewrite.TrackedStructIsKnown | tag.go:94-99 | Before every line, the struct being tagged is "" or a key of the table. |
| Rewrite.CommentKeepsStruct | tag.go:73-92 | A line in or opening a block comment is copied and leaves the tracked struct unchanged. The comment flag afterwards is set exactly when the line does not close the comment. |
| Rewrite.MissingEntryGivesLoneSpace | tag.go:118-120 | A tagged field line whose key has no entry gets " " and nothing else before its backtick. |
| Rewrite.UnknownStructsUnchanged | tag.go:94-104 | When no header names a struct of the table, every line is written out unchanged. |
| Rewrite.EmitLines | tag.go:101-102 | The output length is the line count plus the lengths of the lines. The output is the first line, a newline, then the rest. |
| Rewrite.HeaderStep | tag.go:94-104 | Outside a struct, the header of a struct in the table is copied and starts tracking it. |
| Rewrite.FieldStep | tag.go:117-121 | Inside struct `name`, a generated field line gets " " plus the entry of its lower-cased-first field name before its closing backtick. Tracking continues. |
| Rewrite.CloseStep | tag.go:110-115 | Inside a struct, `}` is copied and ends tracking. |
| Rewrite.PersonRewrite | tag.go:56-122 | The Person stub, with `valid:"required"` stored for `name` and the default for `age`, is rewritten line by line to the tagged stub. |
| Plugin.Tag.Init | tag.go:34-37 | The table starts empty. |
| Plugin.Tag.AddFieldComment | tag.go:130-142 | The loop leaves the table equal to `AddFieldComments` of the old table. That function creates the message's entry when absent and stores the tag of each field in order. |
| Plugin.Tag.Generate | tag.go:39-126 | The method records the file. The table becomes the harvest of the old table over the file's messages, in the loop's order, and stays free of `$`. The returned stub is the rewrite of the input lines under the new table. |
| Plugin.FieldLineGetsItsComment | tag.go:118-120 | Take a tagged line of a harvested message's struct whose lower-cased-first name is field k's name. It comes out with the comment found at the field's path before its backtick. |
| Plugin.GeneratedFieldLineGetsItsComment | tag.go:117-121 | The same for the line protoc-gen-go writes for field k, whose Go name lower-cases to the descriptor name. |

## Left out

- Plugin plumbing is not modelled: `init`/`RegisterPlugin`, `Name`, `GenerateImports`, the generator handle kept by `Init`, `gen.FileOf`, `gen.Buffer` and `gen.Reset`/`gen.Write`. These are calls into the host generator. `Generate` takes the file descriptor and the stub's lines as parameters and returns the new stub as a string.
- `bufio.Reader.ReadLine` is not modelled. That covers the splitting of over-long lines through the ignored `isPrefix` result and the dropping of a trailing carriage return. The stub is taken as a sequence of lines without newline characters.
- Names.StructName: models only `type (.+) struct {`, not a general regular-expression engine. Lines hold no newline, so `.` matches every character.
- Names.FieldName: models only `\t(.+)\t.+\t.+`, on the same terms.
- Names.InsertTag: requires that the tag holds no `$`. The `$`-expansion that `ReplaceAllString` applies to its replacement text is not modelled.
- Rewrite.RewriteStub: requires a `$`-free table, because it calls InsertTag.
- Plugin.Tag.Generate: requires that the table and the file's trailing comments hold no `$`, for the same reason.
- GoStrings.TrimSpace: covers ASCII white space only. Unicode spaces such as U+0085 and U+00A0 are not trimmed.
- Names.ToLowerFirst: lower-cases ASCII letters only. It works on characters, whereas Go's `str[:1]` takes the first byte.
- Harvester.IsSamePath: does not model the nil-versus-empty distinction (tag.go:162-168), which a Dafny sequence cannot express. Field paths are never nil.
- Harvester.IsSamePath: models paths as unbounded integers, not `int32`. The indices the harvest builds fit in 32 bits.
- The protobuf descriptor library types are replaced by plain datatypes holding only the parts the plugin reads: message names, fields, nested messages and source locations.
- How protoc-gen-go turns descriptor names into Go names (`CamelCase`, and `Outer_Inner` for a nested message's struct) is not part of this model. The end-to-end lemmas take the Go-side field name and the tracked struct name as hypotheses, and state when they match the descriptor names.

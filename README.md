# oaph placeholder builder, modelled in Dafny

This project models the core of `oaph`, a Rust library that fills an
OpenAPI document template from Rust types. The core is the builder
`OpenApiPlaceHolder` in `src/lib.rs`. It holds two maps:

- `ph` maps placeholder names to blocks of text.
- `definitions` maps names to sub-schemas collected from reflected types.

`query_params` and `schema` fill both maps. `render_to` then stores the
serialised definitions under the reserved name `oaph::definitions`. After
that it makes one pass over the template for each stored name. In a pass,
every line that holds the token `{{name}}` gets each token replaced by the
block. The block's later lines are indented by the text in front of the
first token, and the line is right-trimmed.

Files:

- `prelude.dfy`: `Option`, `Result` and `Outcome`.
- `text.dfy` (module `Text`): the `str` operations the builder relies on, with their laws. These are `split('\n')`, `join`, `find`, `contains`, `replace`, `trim_end` and `trim`, with `trim_start`, the leading half of `trim`.
- `schemars.dfy` (module `Schemars`): the schema values the builder reads, plus `to_yaml`. serde_yaml is passed in as a function that may fail.
- `oaph.dfy` (module `Oaph`): `with_indent`, the parts of `query_params`, the render passes, and the class `OpenApiPlaceHolder`. The class has the two maps as fields and one method per builder call.

What is an input here and what is not modelled:

- schemars' reflection is an input. Each builder call receives the `RootSchema` value that reflection would have produced.
- serde_yaml is the parameter `serde`. It returns `None` where serialisation fails. `to_yaml`'s removal of `---\n` and its trim are modelled on the returned text.
- The iteration order of the `HashMap` `ph` is unspecified. `RenderTo` therefore picks an arbitrary remaining key on each pass and returns the order it used as the ghost `passes`. The lemmas about rendering hold for every order, or they name the order they assume.

Behaviour of the code that the model keeps:

- `render_to` replaces every occurrence of a token on a line, all with the indent of the first one (src/lib.rs:142-146).
- `query_params` and `schema` merge the definitions before they can fail (src/lib.rs:47, 102). On failure `ph` is unchanged, but `definitions` is already merged. In Rust the builder is consumed on error, so the caller never sees that state.

## Model

| member | source | states |
|---|---|---|
| Text.Split | src/lib.rs:77 | `split('\n')` gives at least one piece, and no piece contains a newline |
| Text.Join | src/lib.rs:122 | definition, no contract: `join` puts the separator between each two neighbours, as at src/lib.rs:80, 91, 122 and 154 |
| Text.SplitConcat | src/lib.rs:137-154 | splitting `a + "\n" + b` gives the lines of `a` followed by the lines of `b` |
| Text.JoinPieceInSplit | src/lib.rs:137-154 | a newline-free piece of a newline-joined list is one of the lines of the joined text |
| Text.JoinSplit | src/lib.rs:137-154 | joining a text's lines with newlines gives the text back |
| Text.SplitJoin | src/lib.rs:111-122 | splitting newline-free pieces joined by newlines gives the same pieces back |
| Text.Find | src/lib.rs:142 | `find` returns an offset where the pattern occurs, and `None` only when it occurs nowhere, so `None` exactly when there is no occurrence |
| Text.FindFirst | src/lib.rs:142 | the offset `find` returns is the first occurrence: the pattern occurs at no earlier offset |
| Text.Contains | src/lib.rs:78 | definition, no contract: `contains` holds exactly when `find` finds an occurrence |
| Text.BeforeFirst | src/lib.rs:144 | the text before the first occurrence does not contain the pattern |
| Text.ReplaceAll | src/lib.rs:146 | definition, no contract: `replace` swaps the first occurrence and continues after it; its meaning is stated by `ReplaceAllJoinsFields`, and `to_yaml` uses it at src/lib.rs:41 |
| Text.FieldsJoin | src/lib.rs:146 | cutting a line at the pattern's occurrences and rejoining with the pattern gives the line back |
| Text.FieldsFree | src/lib.rs:146 | no piece of that cut contains the pattern |
| Text.ReplaceAllJoinsFields | src/lib.rs:146 | `replace` is that cut rejoined with the replacement, so every occurrence is replaced and nothing else changes |
| Text.ReplaceOnce | src/lib.rs:146 | with a single occurrence, `replace` swaps just that occurrence and keeps the text on either side |
| Text.TrimEnd | src/lib.rs:147 | `trim_end` keeps a prefix that is empty or does not end in whitespace, and removes only whitespace |
| Text.IsWhitespace | src/lib.rs:147 | definition, no contract: the Unicode White_Space characters that `trim_end` and `trim` (src/lib.rs:42) remove |
| Text.TrimStart | src/lib.rs:42 | `trim_start` keeps a suffix that is empty or does not start with whitespace, and removes only whitespace |
| Text.Trim | src/lib.rs:70 | `trim` leaves no whitespace at either end |
| Text.TrimSlice | src/lib.rs:42 | `trim`'s result is a slice of its input with only whitespace around it |
| Schemars.ToYaml | src/lib.rs:39-44 | `to_yaml` fails exactly when serde_yaml fails, with a serialisation error; otherwise its text has no whitespace at either end |
| Oaph.WithIndent | src/lib.rs:110-123 | definition, no contract: the value's lines, every line after the first prefixed by `indent`, rejoined by newlines; its meaning is stated by `WithIndentLines` |
| Oaph.WithIndentLines | src/lib.rs:110-123 | `with_indent` keeps the number of lines, leaves line 0 as it is, and makes every later line `indent` plus the original line |
| Oaph.WithIndentSingleLine | src/lib.rs:110-123 | a single-line value is returned unchanged |
| Oaph.WithIndentEmpty | src/lib.rs:110-123 | an empty indent changes nothing |
| Oaph.IndentBlock | src/lib.rs:82-87 | the value written after its indent has every line at the indent's column |
| Oaph.Required | src/lib.rs:53-67 | `required` is "true" exactly for a schema object without a `nullable` extension, and "false" for a nullable object and for any other kind |
| Oaph.PropertyDescription | src/lib.rs:60-66 | definition, no contract: the schema object's metadata description, none for other kinds; what it puts in an entry is stated by `EntryDescription` |
| Oaph.KeepLines | src/lib.rs:78 | the kept lines are exactly the input lines that do not contain `description:` |
| Oaph.DropDescriptionLines | src/lib.rs:76-80 | definition, no contract: the schema's YAML split into lines, the kept lines rejoined by newlines; its meaning is stated by `DropDescriptionLinesFilters` |
| Oaph.DropDescriptionLinesFilters | src/lib.rs:75-80 | no line of the filtered block contains `description:`, and every line that does not contain it survives |
| Oaph.SchemaBlock | src/lib.rs:82-88 | definition, no contract: the filtered block re-indented by four blanks, after four blanks; its meaning is stated by `SchemaBlockLines` |
| Oaph.SchemaBlockLines | src/lib.rs:75-87 | every line of the spliced schema block starts with four blanks, and none contains `description:` |
| Oaph.ParameterEntry | src/lib.rs:76 | an entry exists exactly when its property's schema serialises |
| Oaph.HeadLines | src/lib.rs:82-88 | definition, no contract: the head lines of the entry's format string; their layout is stated by `EntryLines` |
| Oaph.DescriptionLines | src/lib.rs:69-73 | definition, no contract: the lines `description_entry` takes up, none without a description; used by `EntryLines` |
| Oaph.EntryLines | src/lib.rs:69-88 | for any name and description, an entry's lines are `- in: query`, the lines of `  name: <name>`, the lines of `  description: <trimmed>` only when the property has a description (so a description with line breaks takes several lines), then `  required: <r>`, `  schema:`, then the lines of the schema block |
| Oaph.EntryDescription | src/lib.rs:69-88 | for a name without line breaks, the third line of an entry is `  description: ` plus the first line of the trimmed description (all of it when it has no line break) when the property's schema object has one, and it is the `required` line exactly when the schema has no description |
| Oaph.Collect | src/lib.rs:52-91 | definition, no contract: the entries of the properties in order, stopping at the first error like `?`; its meaning is stated by `CollectPerProperty` |
| Oaph.Entries | src/lib.rs:52-91 | definition, no contract: `Collect` with the entry of each property; its meaning is stated by `EntriesPerProperty` |
| Oaph.CollectPerProperty | src/lib.rs:52-91 | collecting gives one entry per property, in order; it fails exactly when some entry fails, with the first failure's error |
| Oaph.EntriesPerProperty | src/lib.rs:52-91 | one entry per property, in property order; it fails exactly when some property's schema fails to serialise, and then with a serialisation error |
| Oaph.CollectStep | src/lib.rs:52-89 | one turn of the property loop: a property whose entry succeeds appends that entry; the first property whose entry fails makes the whole result that failure |
| Oaph.CollectErrorStays | src/lib.rs:76 | once the properties so far have failed, the whole list fails with the same error, whatever follows (the `?` leaves the loop) |
| Oaph.CollectEntries | src/lib.rs:50-89 | the loop returns exactly what collecting specifies: one entry per property, in order, or the error of the first property that fails |
| Oaph.QueryParameters | src/lib.rs:48-94 | a root schema without object validation fails with "Only object type supported" |
| Oaph.QueryParametersResult | src/lib.rs:48-94 | succeeds exactly for an object schema whose every property serialises; the text is then its entries, one per property and in order, joined by newlines |
| Oaph.Pattern | src/lib.rs:141 | definition, no contract: the token `{{key}}` |
| Oaph.RenderLine | src/lib.rs:139-152 | a line without `{{key}}` is unchanged; a line with it ends in no whitespace |
| Oaph.RenderLineReplaces | src/lib.rs:141-148 | on a line with the token, the indent is exactly the text before the first token and contains none; the result is the line cut at every token, rejoined by `with_indent(indent, value)`, then right-trimmed |
| Oaph.RenderLineOneToken | src/lib.rs:141-148 | with a single token on the line, the indented value takes the token's place between the text before and after it |
| Oaph.RenderPass | src/lib.rs:137-154 | definition, no contract: one pass of the loop body, every line rendered and the lines rejoined by newlines |
| Oaph.RenderPassAbsent | src/lib.rs:137-154 | a pass for a key whose token does not occur in the text returns the text unchanged |
| Oaph.RenderPassSoleToken | src/lib.rs:141-148 | a pass over a template that is exactly `{{key}}` gives the value, right-trimmed |
| Oaph.RenderPassKeepsLine | src/lib.rs:137-154 | a line of the text without `{{key}}` is still a line of the text after the pass for `key`, even when other lines take values with line breaks |
| Oaph.RenderAll | src/lib.rs:135-155 | definition, no contract: the passes for the keys, one after another in the order given |
| Oaph.RenderAllAppend | src/lib.rs:135-155 | running the passes for `a + b` is the same as running those for `a` and then those for `b` |
| Oaph.RenderAllAbsent | src/lib.rs:135-155 | a template holding none of the stored keys' tokens comes out unchanged in any order, so a token for a name never stored survives as it is |
| Oaph.RenderAllKeepsLine | src/lib.rs:135-155 | a template line holding none of the stored keys' tokens is a line of the rendered text in every order, so a line with a token for a name never stored survives as it is |
| Oaph.RenderAllSoleToken | src/lib.rs:125-157 | a template that is exactly `{{key}}` renders as the value of `key`, right-trimmed, in any order, provided no other key's token occurs in the template or in that value |
| Oaph.RenderKeys | src/lib.rs:135-155 | the loop over `ph` makes one pass per stored key, each key exactly once, and its result is those passes run in the order it returns |
| Oaph.DefinitionsEntry | src/lib.rs:127-134 | the reserved entry is "" when there are no definitions; otherwise it succeeds exactly when the definitions serialise |
| Oaph.OpenApiPlaceHolder.constructor | src/lib.rs:16-21 | both maps start empty |
| Oaph.OpenApiPlaceHolder.DescribeStruct | src/lib.rs:31-34 | the reflected definitions are merged into `definitions`, overwriting same-named entries; the method may change no other field, so `ph` is unchanged |
| Oaph.OpenApiPlaceHolder.QueryParams | src/lib.rs:46-99 | definitions are merged; on success `ph[name]` becomes the query-parameter text, and the last write wins; on failure `ph` is unchanged |
| Oaph.OpenApiPlaceHolder.Schema | src/lib.rs:101-108 | definitions are merged; on success `ph[name]` becomes the serialised root schema; on failure `ph` is unchanged |
| Oaph.OpenApiPlaceHolder.RenderTo | src/lib.rs:125-157 | the reserved key is set or overwritten with the definitions entry; the result is one pass per stored key, each key exactly once, in the order returned; a serialisation failure leaves `ph` as it was |

## Left out

- Reflection with schemars (`src/lib.rs:24-29`) is not modelled. Its result, a `RootSchema`, is an input.
- serde_yaml's serialisation (`src/lib.rs:40`) is the function parameter `serde`. The model states nothing about the YAML it produces.
- `swagger_ui_html` and `redoc_ui_html` (`src/lib.rs:159-165`) are not modelled. They read HTML assets that are not part of this model.
- `render_to_file` and the `*_to_file` functions (`src/lib.rs:167-186`) are not modelled. They only write files.
- The example HTTP server (`examples/simple/src/main.rs`) and the tests' fixture files are not part of this model.
- `Default` (`src/lib.rs:189-193`) is the constructor.
- Offsets count characters where Rust counts bytes. The text in front of an offset is the same either way.
- Text.Fields: it requires a non-empty pattern, because the builder only replaces `{{name}}` and `---\n`. Rust's behaviour for an empty pattern is not modelled.
- Text.ReplaceAll: it requires a non-empty pattern, for the same reason as `Fields`.
- Oaph.EntryDescription: it requires a name without line breaks, because otherwise the name line occupies several lines and the description starts further down. Property names are struct field names or their serde renames. `EntryLines` covers every name.
- Oaph.KeepLines: the contract states which lines are kept, not their order. The definition keeps the order.
- Oaph.OpenApiPlaceHolder.RenderTo: it does not prove that rendering twice gives the same output. `render_to` consumes the builder, and the model leaves the pass order open.
- Oaph.RenderAllSoleToken: it needs side conditions on the other keys. Names whose tokens overlap each other's text, such as `a` and `{{a}}`, can change one another's substitutions.

# Alchemy CMS cells upgrader and file preview text, in Dafny

The upgrade task `Alchemy::Upgrader::Tasks::CellsUpgrader` removes *cells* from an Alchemy project: it turns every cell into a fixed, nestable element and rewrites the views and configuration that used them. This project models that task. The model covers these steps:

- **Page layouts file.** In every page layout that lists `cells`, the cell names are merged into `elements` and `autogenerate`. Repeats are dropped and first occurrences keep their order. The `cells` key is then removed. The layouts are written back as YAML text, without the document marker and with a blank line before every top-level item.
- **Elements file.** Every cell of the cells file becomes one fixed, unique element definition. Each definition is appended to the elements file as a block of text.
- **Cell views.** Four substitutions rewrite every cell view:
  1. `elements.published` becomes `elements`.
  2. `cell.elements…` becomes `element.nested_elements…`.
  3. Every spelling of `render_elements from_cell: cell` that the pattern accepts becomes `render element.nested_elements`, among them the keyword, parenthesised and rocket forms.
  4. Every remaining `cell` becomes `element`.
- **Moving the cell views.** Each view moves into the elements view folder under a `_view` name, for example `foo_bar.html.erb` becomes `foo_bar_view.html.erb`. The cells folder is then removed.
- **Call sites.** Every view file is rewritten:
  - `render_cell 'x'` becomes `render_elements only: 'x', fixed: true`.
  - `render_elements … from_cell: :x` becomes `render_elements … only: :x, fixed: true`.

The project also models `Alchemy::Ingredients::File#preview_text`, which gives the first `max_length` characters of the attachment's name.

Files:

| file | module | models |
|---|---|---|
| `text.dfy` | `Text` | Ruby's `\w` and `\s` classes, `String#gsub` over a matcher, `sub`/`gsub` of a literal, `Array#join` with `", "` |
| `lists.dfy` | `Lists` | `Array#uniq`: no repeats, same elements, first-seen order |
| `page_layouts.dfy` | `PageLayouts` | `convert_page_layouts_config` (a `PageLayout` object per record, updated in place) and the text `write_config` writes |
| `cell_config.dfy` | `CellConfig` | `convert_cell_config`: the loop that appends the blocks to the elements file, and the blocks read back |
| `cell_views.dfy` | `CellViews` | the four substitutions of `update_cell_views`, and the new file name in `move_cell_views` |
| `render_calls.dfy` | `RenderCalls` | the two substitutions of `update_render_cell_calls` |
| `view_files.dfy` | `ViewFiles` | the loops over the view folders: `update_cell_views`, `update_render_cell_calls`, `move_cell_views` |
| `file_ingredient.dfy` | `FileIngredient` | `preview_text` |

How regular expressions are modelled:

- Each regular expression is a *matcher*: a function that tries the pattern at the start of the remaining text. It returns the length of the match and its replacement.
- `Text.Gsub` scans the input left to right the way Ruby's `gsub` does.
- Every matcher is deterministic. A comment next to each matcher explains why its greedy or lazy choice gives the match Ruby's backtracking engine finds.
- The content of a file is a sequence of characters, one character per byte.
- `\w` is `[A-Za-z0-9_]` and `\s` is `[ \t\n\v\f\r]`.

## Model

| member | source | states |
|---|---|---|
| PageLayouts.PageLayout.constructor | lib/alchemy/upgrader/tasks/cells_upgrader.rb:53 | a loaded record holds the given `elements`, `autogenerate` and `cells` values |
| PageLayouts.Converted | lib/alchemy/upgrader/tasks/cells_upgrader.rb:54-59 | one step of the conversion, the specification `ConvertPageLayoutsConfig` is proved against; its properties are the lemmas below |
| PageLayouts.ConvertPageLayoutsConfig | lib/alchemy/upgrader/tasks/cells_upgrader.rb:51-60 | every loaded record is updated in place to the conversion of its old value: with cells merged into `elements` and `autogenerate` and `cells` removed, otherwise unchanged |
| PageLayouts.ConvertedMergesCells | lib/alchemy/upgrader/tasks/cells_upgrader.rb:54-59 | merge rule: with cells present, `cells` is removed, and `elements` and `autogenerate` are each a clean merge of the old list (or `[]`) and the cells |
| PageLayouts.UniqIsCleanMerge | lib/alchemy/upgrader/tasks/cells_upgrader.rb:58-59 | clean merge: `(old + cells).uniq` has no repeats, holds exactly the names of both lists, and lists them in order of first occurrence |
| PageLayouts.ConvertedKeepsExistingOrder | lib/alchemy/upgrader/tasks/cells_upgrader.rb:55-59 | when the old lists have no repeats, they are prefixes of the merged lists |
| PageLayouts.ConvertedIdempotent | lib/alchemy/upgrader/tasks/cells_upgrader.rb:54 | a converted layout is a fixed point: a second conversion changes nothing |
| PageLayouts.ConvertedExample | lib/alchemy/upgrader/tasks/cells_upgrader.rb:55-59 | `elements: [e1]`, `cells: [c1, c2]` and no `autogenerate` give `elements: [e1, c1, c2]`, `autogenerate: [c1, c2]`, and no `cells` |
| PageLayouts.ConvertedSharedNameExample | lib/alchemy/upgrader/tasks/cells_upgrader.rb:58-59 | a cell already listed as an element appears once, at its first place |
| PageLayouts.DropDocumentMarker | lib/alchemy/upgrader/tasks/cells_upgrader.rb:45 | `sub("---\n", "")`: the first document marker is dropped |
| PageLayouts.SeparateItems | lib/alchemy/upgrader/tasks/cells_upgrader.rb:45 | `gsub("\n-", "\n\n-")`; `SeparateItemsBlankLines` and `SeparateItemsInverse` state what it does |
| PageLayouts.PageLayoutsText | lib/alchemy/upgrader/tasks/cells_upgrader.rb:45 | the text `write_config` writes; `PageLayoutsTextRoundTrip` and `PageLayoutsTextWithoutMarker` state what it is |
| PageLayouts.SeparateItemsBlankLines | lib/alchemy/upgrader/tasks/cells_upgrader.rb:45 | after `gsub("\n-", "\n\n-")` every `-` that starts a line has a blank line above it |
| PageLayouts.SeparateItemsInverse | lib/alchemy/upgrader/tasks/cells_upgrader.rb:45 | the separation loses nothing: removing the inserted blank lines gives back its input |
| PageLayouts.PageLayoutsTextRoundTrip | lib/alchemy/upgrader/tasks/cells_upgrader.rb:45 | config output: for serializer text starting `---\n`, the text written is the rest with blank lines before the items, and the marker plus the joined text restores the serializer text |
| PageLayouts.PageLayoutsTextWithoutMarker | lib/alchemy/upgrader/tasks/cells_upgrader.rb:45 | without a `---\n` only the blank lines are inserted, and joining restores the input |
| Text.Gsub | lib/alchemy/upgrader/tasks/cells_upgrader.rb:118-121 | Ruby's `gsub`: left to right, each match is replaced and scanning resumes after it, other characters are copied; `GsubAtMatch`, `GsubUnchanged` and `GsubSkips` state each case |
| Text.ReplaceAll | lib/alchemy/upgrader/tasks/cells_upgrader.rb:45 | `gsub` of a literal pattern by a constant text; `ReplaceAllIsGsub` proves it equal to `Gsub` with the literal matcher, `ReplaceAllAbsent` that text without the pattern is unchanged |
| Text.ReplaceFirst | lib/alchemy/upgrader/tasks/cells_upgrader.rb:45 | `sub` of a literal pattern: only the first occurrence is replaced; `ReplaceFirstAt` and `ReplaceFirstAbsent` state the two cases |
| Text.Join | lib/alchemy/upgrader/tasks/cells_upgrader.rb:84 | `join(', ')`; `JoinParseItems` proves that reading the list back gives the items |
| Lists.Uniq | lib/alchemy/upgrader/tasks/cells_upgrader.rb:58 | `Array#uniq`: keeps the first occurrence of every element; the lemmas below state its properties |
| Lists.UniqNoDuplicates | lib/alchemy/upgrader/tasks/cells_upgrader.rb:58 | `uniq` leaves no repeats |
| Lists.UniqSameElements | lib/alchemy/upgrader/tasks/cells_upgrader.rb:58 | `uniq` keeps exactly the elements of its input |
| Lists.UniqFirstSeenOrder | lib/alchemy/upgrader/tasks/cells_upgrader.rb:58 | `uniq` lists the elements in the order of their first occurrence |
| Lists.UniqOfDistinct | lib/alchemy/upgrader/tasks/cells_upgrader.rb:58 | a list without repeats is its own `uniq` |
| CellConfig.FixedElementFor | lib/alchemy/upgrader/tasks/cells_upgrader.rb:81-84 | the definition for one cell: the finder's name for the cell and the cell's elements |
| CellConfig.Definitions | lib/alchemy/upgrader/tasks/cells_upgrader.rb:77-84 | one fixed element definition per cell record, in order, each with the finder's name for the cell and the cell's elements |
| CellConfig.FirstUnlisted | lib/alchemy/upgrader/tasks/cells_upgrader.rb:84 | the position of the first record without an `elements` list, where `join` raises, or the number of records; every record before it has a list |
| CellConfig.ElementsFile.constructor | lib/alchemy/upgrader/tasks/cells_upgrader.rb:78 | the elements file holds the given content |
| CellConfig.ConvertCellConfig | lib/alchemy/upgrader/tasks/cells_upgrader.rb:77-87 | the elements file ends up as its old content followed by one block per cell, in the order of the cells file, up to the first record without `elements`; the run completes exactly when every record has a list |
| CellConfig.BlockText | lib/alchemy/upgrader/tasks/cells_upgrader.rb:79-85 | the heredoc after `strip_heredoc`; `ParseBlockText` proves it reads back as its definition |
| CellConfig.Blocks | lib/alchemy/upgrader/tasks/cells_upgrader.rb:77-85 | the blocks of a list of definitions, one after the other; `BlocksSnoc` and `ParseBlocksRoundTrip` state what it holds |
| CellConfig.BlocksSnoc | lib/alchemy/upgrader/tasks/cells_upgrader.rb:77-78 | appending one more cell adds exactly its block at the end |
| CellConfig.ParseBlockText | lib/alchemy/upgrader/tasks/cells_upgrader.rb:79-85 | one block (blank line, `- name:`, `fixed: true`, `unique: true`, `nestable_elements: [..]`) reads back as its name and element list, and leaves what follows |
| CellConfig.ParseBlocksRoundTrip | lib/alchemy/upgrader/tasks/cells_upgrader.rb:79-85 | the blocks of a list of definitions read back as exactly that list |
| CellConfig.AppendedBlocksPerCell | lib/alchemy/upgrader/tasks/cells_upgrader.rb:77-85 | cell-config append: the appended text reads back as one definition per cell, named by the finder, with the cell's elements; no cells append nothing |
| CellViews.UnpublishElements | lib/alchemy/upgrader/tasks/cells_upgrader.rb:118 | rule 1, `gsub(/elements\.published/, 'elements')`; `UnpublishElementsAt` states it |
| CellViews.UnpublishElementsAt | lib/alchemy/upgrader/tasks/cells_upgrader.rb:118 | rule 1 replaces `elements.published` by `elements` and keeps the text before it |
| CellViews.NestedElementsMatch | lib/alchemy/upgrader/tasks/cells_upgrader.rb:119 | rule 2 matches exactly where `cell.elements` is followed by a character other than a line break |
| CellViews.NestElements | lib/alchemy/upgrader/tasks/cells_upgrader.rb:119 | rule 2 as a `gsub` with its matcher; `NestElementsLine` states it |
| CellViews.NestElementsLine | lib/alchemy/upgrader/tasks/cells_upgrader.rb:119 | rule 2 turns `cell.elements` and the rest of its line into `element.nested_elements` and the same rest |
| CellViews.RenderCellElementsMatch | lib/alchemy/upgrader/tasks/cells_upgrader.rb:120 | a rule 3 match starts with `render_elements` and is replaced by `render element.nested_elements` |
| CellViews.RenderNestedElements | lib/alchemy/upgrader/tasks/cells_upgrader.rb:120 | rule 3 as a `gsub` with its matcher; the three form lemmas state what it matches |
| CellViews.AfterFromCellWith | lib/alchemy/upgrader/tasks/cells_upgrader.rb:120 | `render_elements` followed by a blank, `(` or ` :` reaches the text after `from_cell` |
| CellViews.RenderKeywordForm | lib/alchemy/upgrader/tasks/cells_upgrader.rb:120 | `render_elements from_cell: cell` matches all 31 characters |
| CellViews.RenderParenthesisedForm | lib/alchemy/upgrader/tasks/cells_upgrader.rb:120 | `render_elements(from_cell: cell)` matches with its closing parenthesis |
| CellViews.RenderRocketForm | lib/alchemy/upgrader/tasks/cells_upgrader.rb:120 | `render_elements :from_cell => cell` matches all 34 characters |
| CellViews.CellToElement | lib/alchemy/upgrader/tasks/cells_upgrader.rb:121 | rule 4, `gsub(/cell/, 'element')`; `NoCellRemains` states what it leaves |
| CellViews.RewriteCellView | lib/alchemy/upgrader/tasks/cells_upgrader.rb:118-121 | the four rules, each applied to the output of the one before; `RewriteCellViewLeavesNoCell` states what it leaves |
| CellViews.NoCellRemains | lib/alchemy/upgrader/tasks/cells_upgrader.rb:121 | after rule 4 the text holds no `cell`, not even one formed across a replacement |
| CellViews.RewriteCellViewLeavesNoCell | lib/alchemy/upgrader/tasks/cells_upgrader.rb:118-121 | cell-view rewrite: after the four rules no `cell` remains |
| CellViews.ExtensionLength | lib/alchemy/upgrader/tasks/cells_upgrader.rb:99 | the extension group matches exactly when the text starts with `erb`, `haml` or `slim` |
| CellViews.ViewNameMatch | lib/alchemy/upgrader/tasks/cells_upgrader.rb:99 | one try of the file-name pattern (`_`, a word, a dot, an optional `\w*.` segment, then `erb`, `haml` or `slim`) at the start of a name; its own contract gives the leading `_` and the five extra characters, and the next three lemmas tie it to the pattern without the matcher |
| CellViews.ViewNameMatchFound | lib/alchemy/upgrader/tasks/cells_upgrader.rb:99 | every match is a text `_w.fx` the pattern accepts (a word `w`, nothing or a `\w*.` segment `f`, an extension `x`), replaced by `_w_view.fx` |
| CellViews.ViewNameMatchOfShape | lib/alchemy/upgrader/tasks/cells_upgrader.rb:99 | every text `_w.fx` the pattern accepts is matched, and a non-empty segment `f` is taken whole, the choice backtracking makes first |
| CellViews.ViewNameMatchIff | lib/alchemy/upgrader/tasks/cells_upgrader.rb:99 | the matcher succeeds exactly on the texts that start with an accepted `_w.fx` |
| CellViews.MovedViewName | lib/alchemy/upgrader/tasks/cells_upgrader.rb:99 | the new file name, a `gsub` with the file-name matcher; the lemmas below state when and how it changes a name |
| CellViews.MovedViewNameUnchangedIff | lib/alchemy/upgrader/tasks/cells_upgrader.rb:99 | unchanged case: a name is kept exactly when the pattern matches nowhere in it |
| CellViews.MovedViewNameUnchangedShape | lib/alchemy/upgrader/tasks/cells_upgrader.rb:99 | unchanged case without the matcher: a name is kept exactly when no position of it starts `_w.fx` with a word `w`, an optional `\w*.` segment `f` and an extension `erb`, `haml` or `slim` |
| CellViews.MovedViewNameWithoutUnderscore | lib/alchemy/upgrader/tasks/cells_upgrader.rb:99 | a name without `_` is kept |
| CellViews.MovedViewNamePlain | lib/alchemy/upgrader/tasks/cells_upgrader.rb:99 | `p_w.ext` becomes `p_w_view.ext` for a template extension `ext` |
| CellViews.MovedViewNameFormat | lib/alchemy/upgrader/tasks/cells_upgrader.rb:99 | `p_w.fmt.ext` becomes `p_w_view.fmt.ext` |
| CellViews.MovedViewNameExample | lib/alchemy/upgrader/tasks/cells_upgrader.rb:99 | `foo_bar.html.erb` becomes `foo_bar_view.html.erb` |
| RenderCalls.RenderCellAt | lib/alchemy/upgrader/tasks/cells_upgrader.rb:136 | a `render_cell` match starts with `render_cell` and consumes at least one character |
| RenderCalls.RenderCellAtCall | lib/alchemy/upgrader/tasks/cells_upgrader.rb:136-139 | a call `render_cell`, blanks or `(`, quote or colon, name, non-word character is replaced by `render_elements`, the blanks, `only: `, quote, migrated name, the character, `, fixed: true` |
| RenderCalls.RenderCells | lib/alchemy/upgrader/tasks/cells_upgrader.rb:136-139 | the first `gsub!`; `RenderCellsCall`, `RenderCellsOne` and `RenderCellsAbsent` state what it does |
| RenderCalls.RenderCellsCall | lib/alchemy/upgrader/tasks/cells_upgrader.rb:136-139 | the first substitution keeps the text before a call, rewrites the call and goes on after it |
| RenderCalls.RenderCellsAbsent | lib/alchemy/upgrader/tasks/cells_upgrader.rb:136 | text without `render_cell` is left unchanged by the first substitution |
| RenderCalls.RenderCellsOne | lib/alchemy/upgrader/tasks/cells_upgrader.rb:136-139 | trailing arguments: a line with one call keeps everything after the call's closing character, following `, fixed: true` |
| RenderCalls.RenderCellsExample | lib/alchemy/upgrader/tasks/cells_upgrader.rb:133-139 | `render_cell('test')` becomes `render_elements(only: 'test', fixed: true)` |
| RenderCalls.OpeningIndex | lib/alchemy/upgrader/tasks/cells_upgrader.rb:146 | `[:\s=>]+([:'"])(\w+)` finds an opening quote or colon followed by a word character |
| RenderCalls.OpeningIndexCall | lib/alchemy/upgrader/tasks/cells_upgrader.rb:146 | the opening is found right after the separators, also when it is a `:` the separator run gives back |
| RenderCalls.FromCellArgumentAt | lib/alchemy/upgrader/tasks/cells_upgrader.rb:146 | the part of the pattern from `from_cell` on matches only text starting with `from_cell` |
| RenderCalls.FromCellSearch | lib/alchemy/upgrader/tasks/cells_upgrader.rb:146 | the lazy `(.*?)`: a position found lies at or after the start, and its match ends within the text |
| RenderCalls.FromCellSearchFirst | lib/alchemy/upgrader/tasks/cells_upgrader.rb:146 | what the search finds is a match of the part from `from_cell` on, at the first position with no line break before it where that part matches |
| RenderCalls.FromCellSearchNone | lib/alchemy/upgrader/tasks/cells_upgrader.rb:146 | when the search finds nothing, the part from `from_cell` on matches at no position up to the end of the line |
| RenderCalls.FromCellSearchSkips | lib/alchemy/upgrader/tasks/cells_upgrader.rb:146 | the lazy search passes over arguments without a line break or `from_cell` |
| RenderCalls.FromCellAt | lib/alchemy/upgrader/tasks/cells_upgrader.rb:146-149 | a `from_cell` match starts with `render_elements` and consumes at least one character |
| RenderCalls.FromCellRewrite | lib/alchemy/upgrader/tasks/cells_upgrader.rb:146-149 | the match covers `render_elements`, the arguments and the `from_cell` part |
| RenderCalls.FromCellAtOf | lib/alchemy/upgrader/tasks/cells_upgrader.rb:146-149 | arguments before `from_cell` are kept, then `only: `, the opener, the migrated name, the closing quote, `, fixed: true`, and the rest of the line |
| RenderCalls.FromCells | lib/alchemy/upgrader/tasks/cells_upgrader.rb:146-149 | the second `gsub!`; `FromCellsAtOf`, `FromCellsLine` and `FromCellsAbsent` state what it does |
| RenderCalls.RewriteCallSites | lib/alchemy/upgrader/tasks/cells_upgrader.rb:136-149 | both substitutions in order; `RewriteCallSitesUnchanged` and `UpdateRenderCellCalls` state it |
| RenderCalls.FromCellsAtOf | lib/alchemy/upgrader/tasks/cells_upgrader.rb:146-149 | the second substitution rewrites the call and continues with the following lines |
| RenderCalls.FromCellsLine | lib/alchemy/upgrader/tasks/cells_upgrader.rb:146-149 | a whole `render_elements … from_cell …` line is rewritten as above, for every separator, opener and closing-quote form |
| RenderCalls.FromCellsExample | lib/alchemy/upgrader/tasks/cells_upgrader.rb:142-149 | `render_elements testing: 'blubb', from_cell: :page_intro` becomes `render_elements testing: 'blubb', only: :page_intro, fixed: true` |
| RenderCalls.FromCellsAbsent | lib/alchemy/upgrader/tasks/cells_upgrader.rb:146 | text without `from_cell` is left unchanged by the second substitution |
| RenderCalls.RewriteCallSitesUnchanged | lib/alchemy/upgrader/tasks/cells_upgrader.rb:136-149 | content with neither `render_cell` nor `from_cell` is unchanged |
| ViewFiles.Folder.constructor | lib/alchemy/upgrader/tasks/cells_upgrader.rb:117 | a present folder with the given files and subfolders, which do not overlap |
| ViewFiles.FirstDirectory | lib/alchemy/upgrader/tasks/cells_upgrader.rb:117-118 | the position of the first subfolder in a listing, or its length when there is none |
| ViewFiles.GsubEachEntry | lib/alchemy/upgrader/tasks/cells_upgrader.rb:117-122 | the entries before the first subfolder are rewritten and all other files keep their content; the run completes exactly when there is no subfolder |
| ViewFiles.UpdateCellViews | lib/alchemy/upgrader/tasks/cells_upgrader.rb:114-126 | every cell view before the first subfolder is rewritten by the four rules; when the run completes, no `cell` remains in any cell view |
| ViewFiles.RewriteEachFile | lib/alchemy/upgrader/tasks/cells_upgrader.rb:130-150 | every regular file is rewritten, subfolders are skipped, and no file is added or removed |
| ViewFiles.UpdateRenderCellCalls | lib/alchemy/upgrader/tasks/cells_upgrader.rb:128-152 | every view file gets both call-site substitutions; a file with neither keyword keeps its content |
| ViewFiles.MovedInto | lib/alchemy/upgrader/tasks/cells_upgrader.rb:98-100 | after the moves the elements folder holds its old files and the new name of every moved view |
| ViewFiles.MovedIntoKeepsContent | lib/alchemy/upgrader/tasks/cells_upgrader.rb:100 | a moved view keeps its content under its new name unless a later view takes the same name |
| ViewFiles.MovedIntoKeepsOthers | lib/alchemy/upgrader/tasks/cells_upgrader.rb:100 | a file of the elements folder that no view is renamed to keeps its content |
| ViewFiles.MoveCellViews | lib/alchemy/upgrader/tasks/cells_upgrader.rb:95-107 | the elements folder ends up with the moved views under their new names, in listing order, and the cells folder is removed |
| FileIngredient.NameText | app/models/alchemy/ingredients/file.rb:27 | `attachment&.name.to_s`: the name, or `""` without an attachment or a name |
| FileIngredient.SliceFromStart | app/models/alchemy/ingredients/file.rb:27 | Ruby's `s[0..last]` is a prefix of `s`, `last + 1` characters long cut to the string, and counts from the end for a negative `last` |
| FileIngredient.PreviewText | app/models/alchemy/ingredients/file.rb:26-28 | prefix of the name; `""` with no attachment or name; `min(length, max_length)` characters for `max_length >= 1`; a short name whole; the whole name for `max_length = 0`; a negative `max_length` drops that many characters from the end |
| FileIngredient.PreviewTextDefault | app/models/alchemy/ingredients/file.rb:20-27 | without an argument the preview is the first 30 characters of the name |
| FileIngredient.PreviewTextExamples | app/models/alchemy/ingredients/file.rb:26-28 | a 31-character name loses its last character, `pdf` stays whole, length 0 gives the whole name, length -4 drops four characters, and a missing name gives `""` |

## Left out

- YAML loading and dumping (`YAML.load_file`, `to_yaml`) are outside the model.
  - A page layout is modelled as its three keys `elements`, `autogenerate` and `cells`, each a list of names or missing. The record's other keys are unchanged.
  - The text `write_config` writes is modelled as a function of the serializer's output.
  - The cells file is modelled as the list of its records.
- The file system, Thor's `gsub_file` and `append_to_file`, and `FileUtils.mv`/`rm_rf` are modelled as updates of a folder's maps of files and subfolders.
  - `Dir.glob`'s listing is a parameter: every entry it returns once, in an unspecified order.
  - A `Folder` holds only the entries `Dir.glob` returns. Hidden entries such as `.keep` are not listed by `Dir.glob("…/*")` or `"**/*"`, so the source neither rewrites nor moves them. `rm_rf` deletes them with the cells folder. They are outside the model.
  - The recursive `**/*` listing of the views folder is modelled as one folder whose paths include subdirectories.
- The fixed-element name finder and `CellNameMigrator` are parameters (`finder`, `migrate`). Their naming rules are not part of this model.
- `backup_config`, `delete_cells_config`, `generate_editor_partials` (a Rails generator) and the `puts`/`print` progress messages are not modelled. Neither is the order in which `convert_cells` calls the steps.
- In the heredoc of `convert_cell_config`, `strip_heredoc` with a cell name or element list that holds a line break is not modelled.
- CellConfig.AppendedBlocksPerCell: requires one-line names, and element names that are non-empty, one-line and free of `,`, so that the written list reads back.
- CellConfig.ConvertCellConfig: a record without `elements` ends the run, with the blocks of the records before it written. The upgrade's abort after that, which skips `delete_cells_config`, is not modelled. A record without `name` is not modelled, because what the name finder does with nil is not part of this model.
- Content is read with `binread`. The model works on characters as single bytes and does not model multi-byte encodings.
- Thor's duplicate check in `append_to_file` is not modelled: the text is always appended.
- ViewFiles.MoveCellViews: requires a present elements folder, a cells folder without subfolders, and new names that are not subfolders of the elements folder.
  - The cells folder has no subfolders because `update_cell_views` runs first and raises on one.
  - `FileUtils.mv` into a missing elements folder raises. That error is not modelled.
  - Moving a file onto a directory is not modelled either.
- ViewFiles.UpdateCellViews: the error raised on a subfolder is modelled as ending the run with `completed` false. The upgrade's own abort after that is not modelled.
- RenderCalls.RenderCellsOne: the trailing-arguments example `render_cell("test", options: true)` is covered by this general lemma for any rest of the line, not as a separate concrete lemma.
- RenderCalls.FromCellsLine: states the rewrite of lines whose arguments before `from_cell` contain no `from_cell` and no line break. For a line with two `from_cell` keywords, `FromCellSearchFirst` states which one the search takes.
- PageLayouts.ConvertPageLayoutsConfig: requires the loaded records to be distinct objects. A YAML alias can make two records one hash. The source then finds `cells` already deleted on the second visit and raises a `TypeError`. That error path is not modelled.
- `lib/alchemy/version.rb` is not part of this model.

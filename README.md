# ETL_CONVERSOR in Dafny

ETL_CONVERSOR turns a supplier's cost sheet and sale-price sheet into one
normalised product catalogue. A browser tool writes the JSON configuration
that drives the pipeline. This project models the pipeline's stages and the
configuration tool's pure helpers, and proves what each stage promises.

- **Vertical text** (`vertical_text.dfy`, `record_reader.dfy`): `conversor_etl`
  cleans the header, drops empty rows and columns, and writes each row as a
  `========== REGISTRO n ==========` block of `column: value` lines.
  `geradorJSON` splits the text into blocks and looks a column's value up.
  The two are proved to round-trip.
- **Extraction** (`config_resolver.dfy`, `extractor.dfy`, `legacy_extractor.dfy`):
  - the configuration is chosen by file-name score;
  - the file's role (custo or venda) is detected;
  - header records are skipped;
  - each template column is filled from its mapping (literal, scalar, fallback
    list or colour list);
  - DESCRICAO defaults to "SEM NOME", and repeated descriptions are numbered.

  The older top-level `geradorJSON.py` is modelled beside it.
- **Merging** (`merger.dfy`), `mescladorJSON`:
  - colour lists expand to one record per colour;
  - cost records are joined against an index of sale records;
  - prices get two decimals;
  - product codes are assigned by first appearance of the description;
  - text is upper-cased in place and null-like fields are dropped;
  - JSON files are grouped by the configuration they use.

  The older top-level `mescladorJSON.py` repeats these functions (its lines
  42-250), so the rows for the current merger describe it too.
- **Separator expansion** (`separator.dfy`), `separadorVariacoes`: decides
  which split rules apply, matches items, and emits one record per matched
  item, rule by rule.
- **Final table** (`translator.dfy`), `tradutor_final`: a class keeps the NCM
  fiscal-code cache, which only grows. It:
  - filters rows whose prices are not both valid;
  - renumbers product codes;
  - assigns colour codes in sorted colour order;
  - conforms rows to the template;
  - formats numbers the Brazilian way (`brazilian_numbers.dfy`).
- **Configuration tool** (TypeScript front end):
  - the CSV tokenizer and extension check of `FileUpload.tsx` (`csv.dfy`);
  - sheet scanning with merged cells, page selection and row padding of
    `PageManager.tsx` (`page_manager.dfy`);
  - mapping upserts of `ColumnMapper.tsx` (`column_mapper.dfy`) and of
    `Index.tsx` (`mapping_editor.dfy`);
  - regex-configuration cleaning and validation of `ConfigRegexBuilder.tsx`
    (`regex_config.dfy`);
  - separator export of `SeparadoresBuilder.tsx` (`separators_builder.dfy`,
    `comma_lists.dfy`);
  - the download name of `JsonOutput.tsx` (`json_output.dfy`).

Shared pieces:
- `catalog.dfy`: the product record, a map from field name to value, and the
  configuration.
- `text.dfy`, `split.dfy`, `numerals.dfy`, `order.dfy`: ASCII text, Python
  `str.split`, decimal numerals, and first-seen and sorted orders.
- `wrappers.dfy`: `Option`.

Behaviour of the code worth noting:
- The merge is a left join, so every cost record survives.
- Product codes restart at 000001 on every run.
- The final filter needs both CUSTO and PRECO1 to be non-zero numbers.

Behaviour of the code that the model keeps as written:
- `formatar_valor` leaves text with a thousands point, such as "1.234,56", unchanged (`Merger.FormatThousandsUnchanged`).
- The `.json` suffix strip in `JsonOutput.tsx` can never apply, because dots are
  removed first (`JsonOutput.SuffixNeverStripped`).
- Disabling the regex keeps the stop line.
- A separator block whose words are only commas and blanks exports with no items (`SeparatorsBuilder.CommaOnlyExportsNoItems`).
- A sheet in which two kept headers are equal once cleaned ("Preço" and "Preço ") makes the converter's value lookup fail inside the first row: the file keeps only the lines written before the repeated column (`VerticalText.ConvertSheet`).

## Model

| member | source | states |
|---|---|---|
| VerticalText.CleanKeepsData | MOTOR/conversor_etl.py:35-37 | cleaning keeps exactly the rows that hold some value, in their original order, every kept row and every kept column holds a value, and no header contains a line break |
| VerticalText.CleanHeaderNoNewline | MOTOR/conversor_etl.py:35 | a cleaned header never contains a line break |
| VerticalText.BlockLines | MOTOR/conversor_etl.py:44-50 | after its marker a block has one line per column plus the title line and the two empty pieces the closing blank line leaves |
| VerticalText.TableBlocks | MOTOR/conversor_etl.py:44-50 | one block is written per kept row |
| VerticalText.TerminatedIsJoin | MOTOR/conversor_etl.py:45-50 | writing each line with its line break and then one blank line is joining the lines and two empty pieces with line breaks |
| VerticalText.WriteBlock | MOTOR/conversor_etl.py:45-50 | when the kept headers are all different the line-by-line writer produces exactly the block of the row: its marker with the row label plus one, a `column: value` line per column (missing values as ""), and a blank line; when two are equal it stops at the first repeated one, where `row[col]` yields several values and `pd.isna` raises, leaving the marker line and the lines before it |
| VerticalText.WriteTable | MOTOR/conversor_etl.py:43-50 | the file written for a cleaned sheet is the blocks of all kept rows in order, or, when the headers repeat, only the partial block of the first row; `ok` says which |
| VerticalText.ConvertSheet | MOTOR/conversor_etl.py:33-50 | a sheet becomes the file `<workbook stem>_<sheet>.txt`; it holds the blocks of the cleaned sheet exactly when no two kept columns have the same cleaned header, and otherwise the partial first block left by the error |
| VerticalText.NoDupIffNoneRepeated | MOTOR/conversor_etl.py:46-48 | the write fails at some column exactly when two kept cleaned headers are equal |
| VerticalText.PartialBlockIsPrefix | MOTOR/conversor_etl.py:43-50 | what a failed write leaves is a proper beginning of the block that would have been written |
| VerticalText.ColumnsNeedRows | MOTOR/conversor_etl.py:36-37 | a cleaned sheet with columns has rows, so repeated headers always reach the failing lookup |
| VerticalText.TxtNameStem | MOTOR/conversor_etl.py:39-40 | the stem of the output file name is the workbook stem, "_" and the sheet name (for a sheet name without '/') |
| RecordReader.SplitAtFirst | MOTOR/geradorJSON.py:165 | `split(':', 1)` is defined exactly when the line has a ':', and cuts it at the first one |
| RecordReader.FindValueAt | MOTOR/geradorJSON.py:162-168 | the first line with a ':' whose trimmed column part has the target's normalised name decides the value: the trimmed text after its first ':' |
| RecordReader.FindValueMissing | MOTOR/geradorJSON.py:162-168 | without such a line the value is "" |
| RecordReader.RoundTrip | MOTOR/geradorJSON.py:354-360 | reading the converter's output in text mode and splitting it at the record marker gives back one block per kept row; looking any column up in a block gives that row's value, trimmed; a name matching no column gives "" (for columns without ':', the marker or line breaks, with distinct normalised names, and values without '\n', '\r' or the marker) |
| RecordReader.LookupInBlock | MOTOR/geradorJSON.py:162-168 | looking a column up in the lines of one written block gives its value trimmed, and an unknown name gives "" |
| RecordReader.LookupInLines | MOTOR/geradorJSON.py:162-168 | in a block of distinct normalised column names, the lookup finds the value of the column with the target's normalised name |
| RecordReader.ReadText | MOTOR/geradorJSON.py:354-355 | the text-mode read leaves no '\r' in what it returns |
| RecordReader.ReturnEndsLine | MOTOR/geradorJSON.py:354-360 | text read in text mode keeps everything before a '\r' and turns the '\r', with a '\n' right after it, into a single line break, so a value holding a '\r' is cut there |
| RecordReader.ReadPrefix | MOTOR/geradorJSON.py:354-355 | text without '\r' is read unchanged, whatever follows it |
| RecordReader.RenderNoReturn | MOTOR/geradorJSON.py:354-355 | the converter's output for a readable table reads back unchanged in text mode |
| RecordReader.SplitFramed | MOTOR/geradorJSON.py:357 | splitting concatenated marked bodies at the marker and dropping the first piece gives back the bodies |
| ConfigResolver.NormalizeName | MOTOR/geradorJSON.py:117-118 | a normalised name holds only digits and lower-case letters |
| ConfigResolver.NormalizeIdempotent | MOTOR/separadorVariacoes.py:23-24 | normalising a normalised name changes nothing |
| ConfigResolver.ScoreBands | MOTOR/geradorJSON.py:50-78 | the score is 100 exactly for an equal name; 90 to 100 when the data file's name starts with the configured one; 70 to 80 when the configured name starts with the data file's; 30 or 56 to 70 when it only occurs inside it; and positive exactly when one of these holds |
| ConfigResolver.FileCandidates | MOTOR/geradorJSON.py:46-81 | the candidates of one configuration all belong to it and score above zero |
| ConfigResolver.Candidates | MOTOR/geradorJSON.py:40-84 | every candidate names an existing configuration and scores above zero |
| ConfigResolver.CollectCandidates | MOTOR/geradorJSON.py:40-84 | the loop over configurations and their files collects exactly the candidate list |
| ConfigResolver.SelectBest | MOTOR/geradorJSON.py:87-90 | the choice exists exactly when there are candidates, and is the first candidate with the greatest (score, name length) key, as a stable descending sort puts it first |
| ConfigResolver.FindExtractorConfig | MOTOR/geradorJSON.py:15-105 | no configuration only when there are none; without a file name the first one; otherwise the best-scoring configuration, or the first one when nothing scores |
| ConfigResolver.FindSeparatorConfig | MOTOR/separadorVariacoes.py:26-84 | "_mesclado" is removed from the stem before scoring; the best-scoring configuration, and none (no fallback) when nothing scores above zero |
| Extractor.IdentifyRoleJustified | MOTOR/geradorJSON.py:123-160 | the first configured spreadsheet whose normalised stem and the file's normalised name contain one another decides the role; when none matches, or there is no configuration, the name decides: "custo" before "venda", otherwise no role. So a returned role is always backed by a matching spreadsheet of that role or by the role's word in the name, and no role means that nothing matched and neither word occurs |
| Extractor.ColorColumnsFromMapping | MOTOR/geradorJSON.py:170-203 | the colour columns are the list of a COR list mapping and empty when there is none; the first COR list of the file's own role wins when non-empty, otherwise the first one of the other role when non-empty, otherwise the first COR list of any role |
| Extractor.ColorListOfFirst | MOTOR/geradorJSON.py:175-180 | one search returns the list of the first COR list mapping for its file, and nothing when that list is empty or missing |
| Extractor.ExtractVariations | MOTOR/geradorJSON.py:205-227 | at most one variation per colour column, each with a price that is neither "" nor "0" |
| Extractor.ExtractVariationsExact | MOTOR/geradorJSON.py:217-225 | every variation is a colour column's cleaned header with its value, and every colour column with a price gives its variation |
| Extractor.SourceColumns | MOTOR/geradorJSON.py:229-252 | the source columns are exactly the listed columns and the non-empty-marker single columns of the mappings of the role (all mappings without a role) |
| Extractor.MatchesSource | MOTOR/geradorJSON.py:274-284 | the flag is set exactly when some source column normalises to the line's column name |
| Extractor.ClassifyLine | MOTOR/geradorJSON.py:265-288 | a line counts as naming a source column exactly when it has a colon and its column is a source column, and as data exactly when it has a colon, its column is no source column and its value is not "", "0" or "0.0" |
| Extractor.IsHeader | MOTOR/geradorJSON.py:254-301 | the loop over the record's lines decides exactly the header condition: some source column found and no other column with data |
| Extractor.MappingsForRole | MOTOR/geradorJSON.py:325-348 | the mappings used are taken from the configuration and are never none when it has some; they are the role's own mappings in order when it has any, else the other role's mappings in order when those exist, else every mapping; an unknown role uses every mapping |
| Extractor.Contribution | MOTOR/geradorJSON.py:377-401 | a mapping writes a literal name (never "VAZIO" or "MERGE") for the empty marker, the colour variations only for COR and only when there are some, otherwise a found value that is neither "" nor "MERGE" |
| Extractor.RecordOfLastWins | MOTOR/geradorJSON.py:373-401 | a template column is in the record exactly when some mapping for it contributes, and the last contributing mapping decides its value |
| Extractor.FirstListed | MOTOR/geradorJSON.py:390-395 | a list mapping takes the value of the first listed column whose value is not "", "0" or "MERGE", and nothing when there is none |
| Extractor.ApplyMapping | MOTOR/geradorJSON.py:374-401 | applying one mapping to the record updates it exactly as the mapping contributes |
| Extractor.BuildRecord | MOTOR/geradorJSON.py:367-401 | the loop over the mappings builds the record that the mappings contribute, last writer winning |
| Extractor.WithDescription | MOTOR/geradorJSON.py:403-405 | a record always has DESCRICAO afterwards ("SEM NOME" when missing) and nothing else changes |
| Extractor.NumberedOnlyRenames | MOTOR/geradorJSON.py:407-416 | numbering duplicates changes only DESCRICAO, and leaves the first record of each collapsed name untouched |
| Extractor.NumberedSnoc | MOTOR/geradorJSON.py:407-416 | a record whose collapsed name was seen n times before is renamed "<name> (n)" |
| Extractor.CounterStep | MOTOR/geradorJSON.py:411-416 | the `nomes_usados` counter after each record holds, for each name, how many times it was seen minus one, and the record is named accordingly |
| Extractor.NameRecord | MOTOR/geradorJSON.py:407-416 | one record is named as the numbering names it, and the `nomes_usados` counter goes on counting how often each collapsed name was seen |
| Extractor.EveryRecordNamed | MOTOR/geradorJSON.py:357-418 | records plus skipped headers account for every block, and every record has a DESCRICAO |
| Extractor.ProcessFile | MOTOR/geradorJSON.py:303-423 | the file's records are the numbered records of its non-header blocks, built with the role's mappings and colour columns, and the skipped count is the number of header blocks |
| Extractor.UpdatesLastWins | MOTOR/geradorJSON.py:373-401 | after a sequence of dictionary assignments a key is present exactly when some assignment wrote it, and holds the last value written |
| Extractor.RecordOfSnoc | MOTOR/geradorJSON.py:373-401 | one more mapping updates the record built so far as that mapping contributes |
| Extractor.RawRecordsCount | MOTOR/geradorJSON.py:357-405 | every block gives either a record or a skipped header, and every record has a DESCRICAO |
| LegacyExtractor.LegacyContribution | geradorJSON.py:92-124 | the older extractor writes a literal name (never "VAZIO" or "MERGE") for the empty marker, the fixed-list colour variations only for COR and only when there are some, otherwise a non-empty found value |
| LegacyExtractor.LegacyAcceptsMore | geradorJSON.py:109-124 | whatever the current extractor writes for a mapping, the older one writes too (it also accepts "MERGE" in list mappings) |
| LegacyExtractor.LegacyLastWins | geradorJSON.py:85-124 | a template column is in a record exactly when some mapping for it contributes, the last one deciding, with the colour variations taken from the fixed colour list |
| LegacyExtractor.LegacyApply | geradorJSON.py:92-124 | applying one mapping updates the record exactly as the mapping contributes |
| LegacyExtractor.LegacyFirstListed | geradorJSON.py:115-119 | the loop over a list mapping's columns stops at the first column whose value is neither empty nor "0", and runs past the end when none passes |
| LegacyExtractor.LegacyRecordsShape | geradorJSON.py:83-128 | at most one record per block, and no empty record is kept |
| LegacyExtractor.LegacyBlockRecord | geradorJSON.py:86-124 | the mapping loop for one block builds exactly the record of that block: every mapping applied in order over the block's lines and colour variations |
| LegacyExtractor.LegacyProcessFile | geradorJSON.py:77-130 | the loop over blocks and mappings builds exactly the non-empty records of the blocks, with every mapping applied |
| Merger.FileKey | MOTOR/mescladorJSON.py:113-118 | a file's key holds only lower-case letters and digits |
| Merger.IdentifyFileRole | MOTOR/mescladorJSON.py:120-144 | a role is found exactly when there is a configuration and some configured path matches the file's key either way round, and it is the role of the first such entry |
| Merger.NormalizeProductNameIdempotent | MOTOR/mescladorJSON.py:146-150 | a normalised description is lower-case, trimmed, with single blanks, and normalising it again changes nothing |
| Merger.FormatValue | MOTOR/mescladorJSON.py:152-155 | an empty value formats to the empty text |
| Merger.FormatField | MOTOR/mescladorJSON.py:152-168 | a falsy value formats to the empty text and a text formats as its characters do |
| Merger.FormatValueShape | MOTOR/mescladorJSON.py:152-168 | a formatted value is either unchanged or a number with exactly two decimals, and formatting twice is formatting once |
| Merger.FormatFixedTwo | MOTOR/mescladorJSON.py:157-166 | a number already written with two decimals is kept as it is |
| Merger.FormatWholeNumber | MOTOR/mescladorJSON.py:157-166 | a whole number gains ".00" |
| Merger.FormatDecimalComma | MOTOR/mescladorJSON.py:160-166 | digits, a comma and digits ("10,5") are written as that number with two decimals ("10.50"): the comma is read as the decimal point |
| Merger.FormatThousandsUnchanged | MOTOR/mescladorJSON.py:157-168 | text of the form digits.digits,digits ("1.234,56") has two points once its comma becomes a point, so it is not read as a number and is kept unchanged |
| Merger.Variant | MOTOR/mescladorJSON.py:180-187 | a copy made for one colour no longer holds a colour list |
| Merger.Expanded | MOTOR/mescladorJSON.py:174-192 | a record with a colour list becomes one copy per colour, in order, each naming its colour and holding its formatted price in the role's price field with every other field kept; any other record stays as it is |
| Merger.ExpandRecord | MOTOR/mescladorJSON.py:174-192 | the loop over the colours builds exactly the copies of one record |
| Merger.ExpandColors | MOTOR/mescladorJSON.py:170-194 | the loop over the records builds exactly the expansion of the whole list |
| Merger.ExpandAllCount | MOTOR/mescladorJSON.py:170-194 | the expansion has one record per variant, never fewer records than it started with |
| Merger.ExpandAllFlat | MOTOR/mescladorJSON.py:170-194 | no expanded record holds a colour list |
| Merger.ExpandAllKeepsFlat | MOTOR/mescladorJSON.py:190-192 | records without colour lists are left as they are |
| Merger.ExpandIdempotent | MOTOR/mescladorJSON.py:170-194 | expanding twice is expanding once |
| Merger.KeySettingsOf | MOTOR/mescladorJSON.py:267-269 | without a merge configuration the key includes the colour and no extra fields |
| Merger.KeyParts | MOTOR/mescladorJSON.py:273-287 | the key has the description, the colour when it is included, and one part per extra field |
| Merger.MergeKeyParts | MOTOR/mescladorJSON.py:273-287 | when no part holds "&#124;", splitting the key gives back its parts, so two keys are equal exactly when their parts are |
| Merger.KeysOf | MOTOR/mescladorJSON.py:290-293 | one key per record, in order |
| Merger.IndexByLastWins | MOTOR/mescladorJSON.py:290-293 | a key is in the index exactly when some record has it, and it maps to the last record with that key |
| Merger.SaleIndexLastWins | MOTOR/mescladorJSON.py:290-293 | the sale index holds exactly the keys of the sale records, each mapping to the last sale record with that key |
| Merger.BuildSaleIndex | MOTOR/mescladorJSON.py:290-293 | the loop builds exactly the sale index |
| Merger.Merge | MOTOR/mescladorJSON.py:264-314 | one merged row per cost record, in order, each merged with the sale index; sale records without a cost record are dropped |
| Merger.MergeRow | MOTOR/mescladorJSON.py:296-312 | one cost record is merged as the merged-row definition says |
| Merger.MergedRowFields | MOTOR/mescladorJSON.py:296-312 | a merged row keeps every cost field, formats the cost, and gains the formatted sale price exactly when the last sale record with its key has a truthy price; otherwise its own price is untouched |
| Merger.Descriptions | MOTOR/mescladorJSON.py:323-325 | one normalised description per record |
| Merger.CodesAdvance | MOTOR/mescladorJSON.py:327-329 | a description not in the table gets the next number as its code, and the table and the counter stay in step with the distinct descriptions seen |
| Merger.CodesKept | MOTOR/mescladorJSON.py:327 | a description already in the table changes neither the table nor the counter, which stay in step with the distinct descriptions seen |
| Merger.CodeTableSoFar | MOTOR/mescladorJSON.py:319-333 | the code table after a prefix gives each description seen the code of its first appearance |
| Merger.CodeTableStep | MOTOR/mescladorJSON.py:327-332 | a description seen before keeps its code; a new one gets the next number; either way the record's code is its rank among distinct descriptions |
| Merger.NextCode | MOTOR/mescladorJSON.py:324-332 | one step returns the record's code and the table and counter for the next prefix |
| Merger.AssignProductCodes | MOTOR/mescladorJSON.py:317-335 | the loop gives exactly the coded records |
| Merger.CodedStep | MOTOR/mescladorJSON.py:323-333 | each coded record is the record with the code of its description's rank |
| Merger.ProductCodeDigits | MOTOR/mescladorJSON.py:328 | a code is at least six digits reading back as its number, distinct numbers give distinct codes, and the first code is "000001" |
| Merger.ProductCodes | MOTOR/mescladorJSON.py:317-335 | every record gains a code and keeps its other fields, and two records share a code exactly when their normalised descriptions are equal |
| Merger.UpperValue | MOTOR/mescladorJSON.py:340-342 | non-texts are unchanged and a text keeps its length |
| Merger.Uppercased | MOTOR/mescladorJSON.py:337-343 | the same fields, each value upper-cased |
| Merger.UppercasedIdempotent | MOTOR/mescladorJSON.py:337-343 | upper-casing twice is upper-casing once |
| Merger.UppercaseRecord | MOTOR/mescladorJSON.py:340-342 | the loop over the fields gives exactly the upper-cased record |
| Merger.UppercaseAll | MOTOR/mescladorJSON.py:337-343 | the records are upper-cased in place, each becoming the upper-cased old record |
| Merger.Cleaned | MOTOR/mescladorJSON.py:345-354 | a field is kept exactly when its value is not "", null, "null" or "NULL", and kept fields keep their values |
| Merger.CleanedIdempotent | MOTOR/mescladorJSON.py:345-354 | cleaning twice is cleaning once and no kept value is null-like |
| Merger.CleanRecord | MOTOR/mescladorJSON.py:348-353 | the loop over the fields gives exactly the cleaned record |
| Merger.CleanAll | MOTOR/mescladorJSON.py:345-354 | one cleaned record per record, in order |
| Merger.Select | MOTOR/mescladorJSON.py:210-221 | a group's files are among the files |
| Merger.SelectUnused | MOTOR/mescladorJSON.py:210-221 | a configuration no file chose has no files |
| Merger.GroupedCovers | MOTOR/mescladorJSON.py:196-223 | the groups have distinct configurations, exactly those some file chose, none is empty, and every file is in the group of its configuration |
| Merger.GroupNotEmpty | MOTOR/mescladorJSON.py:210-221 | a configuration some file chose has files |
| Merger.SelectHas | MOTOR/mescladorJSON.py:210-221 | every file is in the group of the configuration it chose |
| Merger.DictionaryEntries | MOTOR/mescladorJSON.py:210-221 | the dictionary has exactly the chosen configurations as keys, each holding the files that chose it |
| Merger.GroupListOfDictionary | MOTOR/mescladorJSON.py:196-223 | reading the dictionary in first-insertion order gives the groups |
| Merger.AddFile | MOTOR/mescladorJSON.py:215-221 | adding one file updates the insertion order and the dictionary as for the longer file list |
| Merger.ChooseNext | MOTOR/mescladorJSON.py:212-213 | a configuration is chosen for the next file exactly when there are configurations, and it is the best match for that file |
| Merger.GroupFiles | MOTOR/mescladorJSON.py:196-223 | no files give no groups, files without configurations give none, and otherwise each file is grouped under the configuration chosen for it |
| Separator.SkipSpaces | MOTOR/separadorVariacoes.py:94-97 | the end of the run of blanks (`\s*`) that starts at a position |
| Separator.SkipDigits | MOTOR/separadorVariacoes.py:94-97 | the end of the run of digits (`\d+`) that starts at a position |
| Separator.Search | MOTOR/separadorVariacoes.py:99-109 | the first position from a start where a variation pattern matches, and none exactly when no position matches |
| Separator.VariationContainsItem | MOTOR/separadorVariacoes.py:86-111 | a value recognised as a variation of an item contains the item, upper-cased and trimmed |
| Separator.AcceptedContains | MOTOR/separadorVariacoes.py:93-109 | a value a pattern accepts contains the item |
| Separator.ValorOriginalMatchesAll | MOTOR/separadorVariacoes.py:166-167 | once a rule with an original value applies, every item of it matches |
| Separator.MatchIsSubstring | MOTOR/separadorVariacoes.py:164-174 | without an original value an item matches exactly when the upper-cased column value contains the upper-cased item |
| Separator.EmittedFields | MOTOR/separadorVariacoes.py:176-205 | a copy keeps every other field; a DESCRICAO rule puts the item in OBS and drops itensSeparados; any other rule puts it in itensSeparados and drops an empty OBS list |
| Separator.ItemOutputs | MOTOR/separadorVariacoes.py:158-205 | at most one copy per item |
| Separator.SeparateItems | MOTOR/separadorVariacoes.py:158-205 | the loop over one rule's items builds exactly the copies for the matching items |
| Separator.ItemOutputsExplained | MOTOR/separadorVariacoes.py:158-205 | every copy is produced by the rule from one of its items |
| Separator.OutputsExplained | MOTOR/separadorVariacoes.py:145-205 | every copy comes from a rule with a column that applies to the record |
| Separator.RulesConcatenate | MOTOR/separadorVariacoes.py:145-205 | the copies of a rule list are those of its parts, in order |
| Separator.SkippedRule | MOTOR/separadorVariacoes.py:150-154 | a rule without a column or items, or one that does not apply, adds no copies |
| Separator.ProcessSeparators | MOTOR/separadorVariacoes.py:135-207 | the loop gives exactly the separated records, and never nothing: a record with no copies is kept as it is |
| Separator.ProcessFile | MOTOR/separadorVariacoes.py:209-245 | output is produced exactly when a configuration is found and it has a non-empty separator list, and it is every record separated, in order |
| Separator.SeparatedAllConcatenate | MOTOR/separadorVariacoes.py:236-240 | separating a list is separating each part, in order |
| Separator.SeparatedAllLength | MOTOR/separadorVariacoes.py:236-240 | separation never loses records |
| Translator.CleanText | TRADUTOR/tradutor_final.py:29-39 | a text keeps its length and every character except line breaks, which become blanks; other values are unchanged |
| Translator.CleanTextIdempotent | TRADUTOR/tradutor_final.py:29-39 | cleaning twice is cleaning once |
| Translator.ReadFrame | TRADUTOR/tradutor_final.py:140-165 | the table has one row per record read, lists first flattened, and its columns are the fields of those records |
| Translator.ReadFrameRows | TRADUTOR/tradutor_final.py:140-165 | each row has its record's fields, every value cleaned of line breaks |
| Translator.ExtractName | TRADUTOR/tradutor_final.py:54-64 | a name is found only in "saida_NAME.json" (a final line break allowed, as `$` allows), and it is non-empty and on one line |
| Translator.ExtractNameRoundTrip | TRADUTOR/tradutor_final.py:54-64 | any non-empty one-line name is found back in "saida_NAME.json" |
| Translator.OutputName | TRADUTOR/tradutor_final.py:66-86 | there is no output name exactly when no file ends in ".json" |
| Translator.OutputNameOfSeparatorFile | TRADUTOR/tradutor_final.py:66-86 | when the first JSON file is "saida_NAME.json", the output is named NAME |
| Translator.UnseenMembers | TRADUTOR/tradutor_final.py:201-210 | the fiscal codes to create are exactly the listed ones not already in the cache |
| Translator.UnseenNoDup | TRADUTOR/tradutor_final.py:194-210 | no fiscal code is given two new numbers |
| Translator.FreshCodesKeys | TRADUTOR/tradutor_final.py:205-210 | the new entries are exactly for the new fiscal codes |
| Translator.FreshCodesAt | TRADUTOR/tradutor_final.py:205-210 | the j-th new fiscal code gets the next free number plus j, written with four digits |
| Translator.AssignFromFresh | TRADUTOR/tradutor_final.py:201-210 | the loop leaves the cache plus the new entries, and the counter past them |
| Translator.FinalTranslator.AssignCodes | TRADUTOR/tradutor_final.py:201-210 | the loop over the unique fiscal codes leaves in the cache exactly what the reference assignment gives, and counts the codes it added |
| Translator.CandidatesNoDup | TRADUTOR/tradutor_final.py:194-195 | the fiscal codes considered have no repeats and are exactly the valid ones in the table |
| Translator.UpdatedCacheFresh | TRADUTOR/tradutor_final.py:186-210 | the new cache is the old one plus fresh numbers for exactly the valid fiscal codes it did not hold |
| Translator.CacheGrows | TRADUTOR/tradutor_final.py:186-210 | cached codes are never changed, and afterwards the cache holds exactly its old entries and the table's valid fiscal codes |
| Translator.NewCodesConsecutive | TRADUTOR/tradutor_final.py:186-210 | the new numbers are consecutive from one past the largest numeric code cached |
| Translator.NewCodeIsNew | TRADUTOR/tradutor_final.py:189-191 | a number beyond every cached numeric code is not the code of any cached entry |
| Translator.NumeralCodeCounted | TRADUTOR/tradutor_final.py:189 | every numeric cached code counts toward the next free number |
| Translator.FreshCodesDiffer | TRADUTOR/tradutor_final.py:186-210 | adding fresh numbers to a cache whose codes are distinct keeps them distinct |
| Translator.CacheStaysUnique | TRADUTOR/tradutor_final.py:167-257 | if no two fiscal codes shared a number before, none do after |
| Translator.MissingNcm | TRADUTOR/tradutor_final.py:181 | a missing fiscal code reads as "NAN" |
| Translator.NcmCached | TRADUTOR/tradutor_final.py:194-210 | every valid fiscal code of the table is in the new cache |
| Translator.FiscalRowShape | TRADUTOR/tradutor_final.py:238-251 | a row gets its trimmed, upper-cased fiscal code and the cached number for it, or the empty text when the code is invalid; no other field changes |
| Translator.FiscalCodesOfRows | TRADUTOR/tradutor_final.py:167-257 | every row of the table gets the number the updated cache holds for its valid fiscal code, the empty text otherwise, and a missing code stays "NAN" |
| Translator.KeptRowsValid | TRADUTOR/tradutor_final.py:376-384 | keeping rows whose description has a valid row and which are valid themselves is keeping the valid rows |
| Translator.FilterKeepsValidRows | TRADUTOR/tradutor_final.py:299-417 | when it returns a frame, the filter keeps exactly the rows whose cost and first price are both valid, in order, with the same columns |
| Translator.DescriptionsOfKept | TRADUTOR/tradutor_final.py:376-384 | the descriptions kept are exactly those with at least one valid row |
| Translator.FilterKeepsProducts | TRADUTOR/tradutor_final.py:299-417 | when the filter returns a frame, a product survives exactly when one of its rows has both prices valid |
| Translator.TwoDescriptionsUnsortable | TRADUTOR/tradutor_final.py:403-409 | two different descriptions, one of them not text, cannot be sorted |
| Translator.MixedKeptDescriptionsFail | TRADUTOR/tradutor_final.py:392-409 | when a row is removed and two rows with both prices valid carry different descriptions, one of them missing, None or a list, the report's `sorted` raises and the filter gives no frame |
| Translator.ListPriceFails | TRADUTOR/tradutor_final.py:312-369 | a row whose CUSTO is a list of two or more items, or whose CUSTO is valid and whose PRECO1 is such a list, makes `pd.isna` raise in the price test, and the filter gives no frame |
| Translator.TextDescriptionsFilter | TRADUTOR/tradutor_final.py:312-409 | with a text description in every row, the filter gives a frame exactly when the column DESCRICAO is missing or the price test raises on no row |
| Translator.NumberingAt | TRADUTOR/tradutor_final.py:437-439 | numbering a list without repeats gives the j-th element the number j+1, zero-padded |
| Translator.NumberingKeys | TRADUTOR/tradutor_final.py:437-439 | the numbered values are exactly the listed ones |
| Translator.NumberingIndex | TRADUTOR/tradutor_final.py:437-439 | without repeats, the element at position j is numbered j+1, zero-padded |
| Translator.BuildNumbering | TRADUTOR/tradutor_final.py:437-439 | the loop builds exactly that numbering |
| Translator.RankCodesShape | TRADUTOR/tradutor_final.py:433-442 | each product code reads back as its description's rank by first appearance and has six digits or more, two codes are equal exactly when the descriptions are, and the first row gets "000001" |
| Translator.RenumberProducts | TRADUTOR/tradutor_final.py:422-450 | the loop gives exactly the renumbered table |
| Translator.ProductCodesFollowDescriptions | TRADUTOR/tradutor_final.py:422-450 | each row's product code is its description's rank by first appearance, written with six digits; two rows share a code exactly when they share a description; the first row gets "000001" |
| Translator.NumberedColor | TRADUTOR/tradutor_final.py:474-492 | the colour code is the number of the colour in the sorted palette, or empty when it is not there |
| Translator.ColorCodeShape | TRADUTOR/tradutor_final.py:474-476 | a colour has a code exactly when it is in the sorted palette, and the code has three digits or more and reads back as the colour's place from 1 |
| Translator.ColorCodeOrder | TRADUTOR/tradutor_final.py:470-476 | in the sorted palette two colours share a code exactly when they are equal, and a colour sorts before another exactly when its code is smaller |
| Translator.GenerateColorCodes | TRADUTOR/tradutor_final.py:452-502 | the loop gives exactly the recoloured table |
| Translator.ColorCodesFollowColors | TRADUTOR/tradutor_final.py:452-502 | a row gets a colour code exactly when its colour is valid, codes run from 1 to the number of colours, two rows share a code exactly when they share a colour, and the codes follow the colours' sorted order |
| Translator.MissingColorStaysNan | TRADUTOR/tradutor_final.py:465-492 | a missing colour reads as "NAN" and gets no code |
| Translator.CorrectedColumn | TRADUTOR/tradutor_final.py:530-564 | one corrected value per row |
| Translator.ApplyRaises | TRADUTOR/tradutor_final.py:549-560 | the `apply` over a column raises exactly when the column is in the frame and one of its cells is a list of two or more items |
| Translator.CorrectValues | TRADUTOR/tradutor_final.py:530-564 | no table exactly when a template column present in the frame holds a list of two or more items in some row; otherwise one corrected column per template column, in order, each exactly `CorrectedColumn`; what every corrected cell satisfies is proved about `CorrectedColumn` (`Translator.CorrectedCellsClean`, `Translator.CorrectedNumberReadsBack`) |
| Translator.CommaJoined | TRADUTOR/tradutor_final.py:518-525 | a number written with a decimal comma is at least four characters, without outer blanks, and holds a comma |
| Translator.BrazilianTextShape | TRADUTOR/tradutor_final.py:504-528 | every number the Brazilian format writes is at least four characters, without outer blanks, and holds a comma |
| Translator.CommaTextValid | TRADUTOR/tradutor_final.py:542 | such a text is never one of the invalid markers |
| Translator.FormatBRValid | TRADUTOR/tradutor_final.py:504-528 | formatting a valid value never gives an invalid one |
| Translator.FixCellClean | TRADUTOR/tradutor_final.py:549-560 | a corrected cell is never null, is invalid only when it is the column default, and is a text outside the numeric columns |
| Translator.CorrectedCellsClean | TRADUTOR/tradutor_final.py:530-564 | the same for every cell of a corrected column |
| Translator.CorrectedNumberReadsBack | TRADUTOR/tradutor_final.py:504-564 | a valid non-negative number with at most two decimals is written with thousand dots and a two-digit decimal comma, and reading that text back gives the number in cents |
| Translator.FinalTranslator.constructor | TRADUTOR/tradutor_final.py:17-27 | the translator starts with the cache it was given |
| Translator.FinalTranslator.GenerateFiscalCodes | TRADUTOR/tradutor_final.py:167-257 | the cache becomes the updated cache, the table gets the fiscal codes from it, and the cache is saved exactly when the column exists and some fiscal code was new |
| Translator.FinalTranslator.Process | TRADUTOR/tradutor_final.py:566-594 | without a JSON file nothing is produced and the cache is untouched; otherwise the output name is found, the cache is updated from the records, and the table is the translated records, or none when the filter or the correction raises |
| Translator.ListCostNoTable | TRADUTOR/tradutor_final.py:566-594 | a record whose CUSTO is a list of two or more items leaves no table, since the NCM stage keeps the cell and the price test raises on it |
| BrazilianNumbers.MissingWordNotANumber | TRADUTOR/tradutor_final.py:273-277 | blank text and the missing words "NAN", "NONE", "NULL", "NA" never read as a number |
| BrazilianNumbers.ValidPriceIsNonZeroNumber | TRADUTOR/tradutor_final.py:312-355 | a price counts as valid for the filter exactly when the price reader turns it into a number that is not zero |
| BrazilianNumbers.Groups | TRADUTOR/tradutor_final.py:518 | a whole number has at least one group of thousands |
| BrazilianNumbers.GroupsShape | TRADUTOR/tradutor_final.py:518 | the groups are digits, the first of one to three digits without a leading zero (unless the number is zero), the others of exactly three, and together they read back as the number |
| BrazilianNumbers.ThousandsSplit | TRADUTOR/tradutor_final.py:518 | splitting the integer part on '.' gives back its groups of thousands |
| BrazilianNumbers.FormatBR | TRADUTOR/tradutor_final.py:504-528 | values that are not numeric texts are returned unchanged |
| BrazilianNumbers.BrazilianTextTwoDecimals | TRADUTOR/tradutor_final.py:511-525 | a non-negative number with at most two decimals is written as its integer part with thousand dots, a comma and its two-digit cents |
| BrazilianNumbers.FormatBRTwoDecimals | TRADUTOR/tradutor_final.py:504-528 | the same, starting from a text that reads as such a number |
| BrazilianNumbers.BrazilianReadsBack | TRADUTOR/tradutor_final.py:261-282 | the price reader turns "w.www,kk" back into the number it writes |
| BrazilianNumbers.FormatBRReadsBack | TRADUTOR/tradutor_final.py:261-282 | reading back the Brazilian text of such a number gives the number, rounded to cents |
| CsvUpload.ExtensionAfterLastDot | JSON/src/components/FileUpload.tsx:42-52 | the extension is the lower-cased text after the last dot, and the file is accepted exactly when that is xlsx, xls, xlsm or csv |
| CsvUpload.ExtensionWithoutDot | JSON/src/components/FileUpload.tsx:42 | a name without a dot is its own extension, lower-cased |
| CsvUpload.Pieces | JSON/src/components/FileUpload.tsx:77 | one piece per line break, a "\r" before it dropped |
| CsvUpload.PiecesOfJoinedText | JSON/src/components/FileUpload.tsx:77 | splitting lines joined with line breaks gives them back |
| CsvUpload.LinesOfJoinedText | JSON/src/components/FileUpload.tsx:77 | the same after blank lines are dropped, for lines that are not blank |
| CsvUpload.Delimiter | JSON/src/components/FileUpload.tsx:81-91 | tab when the first line has more tabs than commas and than semicolons; otherwise semicolon when it has more semicolons than commas; otherwise comma |
| CsvUpload.Scan | JSON/src/components/FileUpload.tsx:94-124 | scanning a line always ends with at least one more cell |
| CsvUpload.ParseLine | JSON/src/components/FileUpload.tsx:94-124 | the loop over the characters gives exactly the cells of the line |
| CsvUpload.UnquotedLine | JSON/src/components/FileUpload.tsx:94-124 | a line without quotes is split on the delimiter, and joining the cells gives the line back |
| CsvUpload.UnquotedCellsRoundTrip | JSON/src/components/FileUpload.tsx:94-124 | cells without quotes or delimiters, joined with the delimiter, read back as themselves |
| CsvUpload.QuotedCell | JSON/src/components/FileUpload.tsx:103-111 | a quoted cell whose quotes are doubled reads back as the cell, whatever it holds |
| CsvUpload.EncodeRoundTrip | JSON/src/components/FileUpload.tsx:94-124 | scanning a line of quoted cells appends exactly those cells |
| CsvUpload.QuotedCellsRoundTrip | JSON/src/components/FileUpload.tsx:94-124 | any cells, each quoted with doubled quotes and joined with the delimiter, read back as themselves |
| CsvUpload.ParseCsv | JSON/src/components/FileUpload.tsx:76-126 | one row per non-blank line, each with at least one cell |
| CsvUpload.ReadCsv | JSON/src/components/FileUpload.tsx:129-139 | the text is rejected exactly when it has no non-blank line |
| CsvUpload.CsvRowOfUnquotedLine | JSON/src/components/FileUpload.tsx:76-126 | a line without quotes becomes the line split on the delimiter found in the first line, and joining the row gives the line back |
| PageManager.GetCellValue | JSON/src/components/PageManager.tsx:318-346 | the loop over the merged ranges gives exactly the cell's value |
| PageManager.SkipRanges | JSON/src/components/PageManager.tsx:320-337 | merged ranges that do not hold the cell are passed over |
| PageManager.MergedCell | JSON/src/components/PageManager.tsx:322-336 | a cell in a merged range reads as the range's top-left value, or as empty when that has none and the cell is not the top-left one |
| PageManager.UnmergedCell | JSON/src/components/PageManager.tsx:339-345 | a cell in no merged range reads as its own value |
| PageManager.RowValues | JSON/src/components/PageManager.tsx:371-379 | a row read has one value per column up to the last |
| PageManager.ReadRow | JSON/src/components/PageManager.tsx:371-379 | the loop over the columns reads exactly that row |
| PageManager.TextCount | JSON/src/components/PageManager.tsx:145-148 | the text cells of a row are at most its length |
| PageManager.FindHeader | JSON/src/components/PageManager.tsx:128-159 | a header row found lies between the lowest row tried and the row just above the data |
| PageManager.FindHeaderRow | JSON/src/components/PageManager.tsx:125-165 | the loop picks exactly the header row of the definition, and reads its values |
| PageManager.HeaderJustAbove | JSON/src/components/PageManager.tsx:150-158 | when the row just above the data has a value, it is the header, whatever its text count |
| PageManager.ColumnNamesNeverEmpty | JSON/src/components/PageManager.tsx:168-186 | a page always has one column name per column, each non-empty and trimmed, with "Coluna_n" for blank headers |
| PageManager.HeaderValues | JSON/src/components/PageManager.tsx:350-360 | the header values have one entry per column |
| PageManager.ReadHeaderValues | JSON/src/components/PageManager.tsx:350-360 | the loop over the columns reads exactly the trimmed, lower-cased header texts |
| PageManager.ProcessPageData | JSON/src/components/PageManager.tsx:303-395 | the loop over the rows gives exactly the page's rows |
| PageManager.IsBlankRow | JSON/src/components/PageManager.tsx:372-381 | the blank flag is set exactly when every cell of the row trims to nothing |
| PageManager.EmittedIffShows | JSON/src/components/PageManager.tsx:383-394 | a row passes both tests (not blank, not a copy of the header) exactly when one of its cells shows something other than blank space or the header's text for that column |
| PageManager.ScanRow | JSON/src/components/PageManager.tsx:370-394 | one pass of the row loop reads the row and keeps it exactly when one of its cells shows something other than blank space or the header's text |
| PageManager.ScanRows | JSON/src/components/PageManager.tsx:370-395 | the row loop keeps, in order, exactly the rows of the scanned range that one pass keeps |
| PageManager.ScannedRows | JSON/src/components/PageManager.tsx:370-395 | every row kept has one value per column, is neither empty nor a copy of the header, and is a row of the scanned range |
| PageManager.HeaderRowSkipped | JSON/src/components/PageManager.tsx:381-394 | the header row itself is never kept |
| PageManager.PageRowsAfterHeader | JSON/src/components/PageManager.tsx:365-395 | the page's rows are the rows after the header up to the last row scanned |
| PageManager.StopRowCaps | JSON/src/components/PageManager.tsx:365-368 | with a stop row, scanning ends at the row before it or at the sheet's last row, whichever comes first |
| PageManager.TogglePage | JSON/src/components/PageManager.tsx:55-63 | toggling a page selects it exactly when it was not selected, leaves the other pages as they were, and adds no repeats |
| PageManager.ToggleTwice | JSON/src/components/PageManager.tsx:55-63 | toggling twice gives back the same pages, possibly in another order |
| PageManager.OtherPages | JSON/src/components/PageManager.tsx:246 | the configurations kept are exactly those of the other pages |
| PageManager.ApprovePage | JSON/src/components/PageManager.tsx:245-263 | approving puts the page's new configuration last and keeps exactly the configurations of the other pages |
| PageManager.OtherPagesOnePerPage | JSON/src/components/PageManager.tsx:246 | dropping a page's configurations keeps at most one configuration per page |
| PageManager.ApprovalKeepsOnePerPage | JSON/src/components/PageManager.tsx:245-263 | approving keeps at most one configuration per page |
| PageManager.Normalized | JSON/src/components/PageManager.tsx:429-436 | a normalised row has exactly the combined number of columns |
| PageManager.NormalizeRow | JSON/src/components/PageManager.tsx:429-436 | the padding loop and the cut give exactly the normalised row |
| PageManager.NormalizedPage | JSON/src/components/PageManager.tsx:425-438 | a page adds nothing when its sheet is missing or unreadable, and otherwise each of its rows padded or cut to the combined width |
| PageManager.GenerateFile | JSON/src/components/PageManager.tsx:406-445 | no file without approved pages; otherwise the file holds the combined columns, every page's rows normalised, and the page names |
| PageManager.AllDataWidth | JSON/src/components/PageManager.tsx:425-439 | every combined row has the same width |
| PageManager.CombinedFileShape | JSON/src/components/PageManager.tsx:416-444 | the combined columns have no repeats and include every page's columns, and every row has one value per combined column |
| ColumnMapper.SlotIndex | JSON/src/components/ColumnMapper.tsx:49-52 | the first mapping filling the slot (template column, spreadsheet), and none exactly when no mapping fills it |
| ColumnMapper.FindSlot | JSON/src/components/ColumnMapper.tsx:49-52 | the search loop returns that position, or -1 |
| ColumnMapper.UpsertReplacesOrAppends | JSON/src/components/ColumnMapper.tsx:59-65 | a new mapping replaces the one in its slot, leaving the others in place, or is appended when the slot was empty |
| ColumnMapper.UpsertKeepsOnePerSlot | JSON/src/components/ColumnMapper.tsx:59-65 | after it, there is still at most one mapping per slot and the new mapping is the one in its slot |
| ColumnMapper.UpsertKeepsOtherSlots | JSON/src/components/ColumnMapper.tsx:59-65 | mappings of other slots are kept |
| ColumnMapper.DropSlotEmpties | JSON/src/components/ColumnMapper.tsx:85-92 | removing a slot's mapping empties that slot and keeps every other mapping |
| ColumnMapper.HandleMapping | JSON/src/components/ColumnMapper.tsx:42-133 | the handler gives exactly the mapping update of its definition |
| ColumnMapper.MappingUpdateOnePerSlot | JSON/src/components/ColumnMapper.tsx:42-133 | a choice keeps at most one mapping per slot, and the chosen column is what fills the slot |
| ColumnMapper.ListedColumnDropsOther | JSON/src/components/ColumnMapper.tsx:70-112 | for a column other than COR, choosing a real column of one spreadsheet (with both loaded) removes the other spreadsheet's mapping for that column |
| ColumnMapper.CustomValueKeepsOther | JSON/src/components/ColumnMapper.tsx:74-93 | choosing a value that is not a column of the spreadsheet keeps the other spreadsheet's mapping |
| ColumnMapper.EmptyChoiceLength | JSON/src/components/ColumnMapper.tsx:48-66 | choosing the empty marker replaces the slot's mapping or adds one |
| ColumnMapper.OtherColumns | JSON/src/components/ColumnMapper.tsx:141 | the mappings kept are exactly those for other template columns |
| ColumnMapper.NameUpdate | JSON/src/components/ColumnMapper.tsx:135-155 | a literal name leaves one mapping for its column, last, naming the cost sheet when there is one; before it are exactly the earlier mappings of the other columns, all kept and nothing added |
| ColumnMapper.NewSelection | JSON/src/components/ColumnMapper.tsx:181-189 | ticking adds the column to the selection and unticking removes it, nothing else changes, and no repeats appear |
| ColumnMapper.HandleMultipleMapping | JSON/src/components/ColumnMapper.tsx:157-204 | the handler gives exactly the multiple-choice update |
| ColumnMapper.MultipleUpdateSelection | JSON/src/components/ColumnMapper.tsx:157-204 | afterwards the slot is filled by a mapping whose selection is the old one with the column added or removed, with still one mapping per slot |
| ColumnMapper.FilledColumns | JSON/src/components/ColumnMapper.tsx:464-479 | only template columns are counted |
| ColumnMapper.FilledColumnsMembers | JSON/src/components/ColumnMapper.tsx:464-479 | a template column counts exactly when some mapping for it has a name, a column, or a non-empty list |
| ColumnMapper.TotalMappedCounts | JSON/src/components/ColumnMapper.tsx:464-479 | the count is at most the number of distinct template columns and counts exactly the columns filled |
| MappingEditor.MappedColumns | JSON/src/pages/Index.tsx:46-48 | the template column of each mapping, in order |
| MappingEditor.Placeholders | JSON/src/pages/Index.tsx:51-58 | at most one placeholder per always-present column |
| MappingEditor.PlaceholdersAre | JSON/src/pages/Index.tsx:51-58 | the placeholders are "VAZIO" mappings for exactly the always-present columns not yet mapped |
| MappingEditor.AddImmutableDefaults | JSON/src/pages/Index.tsx:37-65 | the existing mappings are kept in front |
| MappingEditor.ImmutableDefaultsFill | JSON/src/pages/Index.tsx:37-65 | without any spreadsheet nothing changes; otherwise every always-present column ends up mapped, and each added mapping is a placeholder, on the cost sheet when there is one, for a column not mapped before |
| MappingEditor.ParsedNormal | JSON/src/pages/Index.tsx:90-93 | every variation read from the typed text is trimmed, upper-case, non-empty and without a comma |
| MappingEditor.JoinParseRoundTrip | JSON/src/pages/Index.tsx:124-144 | variations stored with `join(",")` read back as themselves |
| MappingEditor.Combined | JSON/src/pages/Index.tsx:119-136 | the stored variations stay in front, the result holds exactly the stored and the new ones, and no repeats are added |
| MappingEditor.CombinedNormal | JSON/src/pages/Index.tsx:119-136 | combining normal variations gives normal variations |
| MappingEditor.AddVariations | JSON/src/pages/Index.tsx:102-152 | the loop over the two spreadsheets gives exactly the update for one spreadsheet's colour mapping |
| MappingEditor.HandleNovasVariacoes | JSON/src/pages/Index.tsx:87-157 | the handler gives exactly the update of its definition |
| MappingEditor.VariationsAppended | JSON/src/pages/Index.tsx:102-152 | the colour mapping keeps its source and stores the old variations followed by the new ones not already there, without repeats |
| MappingEditor.NovasUpdateOnePerSlot | JSON/src/pages/Index.tsx:87-157 | typing nothing changes nothing, and the update keeps one mapping per slot |
| MappingEditor.RemoveVariation | JSON/src/pages/Index.tsx:160-198 | one mapping out per mapping in |
| MappingEditor.RemoveVariationEffect | JSON/src/pages/Index.tsx:160-198 | only the new-variations field of colour mappings changes: it loses every copy of the upper-cased variation, and is dropped when nothing else was left |
| MappingEditor.ClearVariations | JSON/src/pages/Index.tsx:201-218 | every colour mapping with new variations loses that field and every other mapping is unchanged |
| MappingEditor.ClearVariationsEffect | JSON/src/pages/Index.tsx:201-218 | afterwards no mapping has new variations, and only colour mappings changed |
| MappingEditor.GroupOf | JSON/src/pages/Index.tsx:242-249 | a column's group is exactly its mappings |
| MappingEditor.ReadyRequired | JSON/src/pages/Index.tsx:238-325 | the ready columns are exactly the mapped required columns whose group is ready, without repeats |
| MappingEditor.CanGenerateExactly | JSON/src/pages/Index.tsx:329-339 | generation is possible exactly when both spreadsheets are loaded, every required column is mapped and ready, and both merge keys are set |
| RegexConfig.ParsedClean | JSON/src/components/ConfigRegexBuilder.tsx:277-287 | every variation read from the typed text is non-blank, trimmed, and has no comma and no line break |
| RegexConfig.ShownListRoundTrip | JSON/src/components/ConfigRegexBuilder.tsx:271-284 | the variations shown joined with ", " read back as themselves |
| RegexConfig.SetVariations | JSON/src/components/ConfigRegexBuilder.tsx:277-287 | only the variations change, and they are clean |
| RegexConfig.SetRegexActive | JSON/src/components/ConfigRegexBuilder.tsx:288-296 | the switch is set, switching off resets the placement to "inicial", and nothing else changes |
| RegexConfig.SetApply | JSON/src/components/ConfigRegexBuilder.tsx:298-306 | the placement is set, "inicial" drops the stop line, "abaixo" keeps it, and nothing else changes |
| RegexConfig.StopKindTidy | JSON/src/components/ConfigRegexBuilder.tsx:53-62 | changing the stop kind keeps the name, drops the pattern for a full stop, keeps it otherwise, and drops the configuration below unless the kind is "ignorar_e_continuar" |
| RegexConfig.AddStopLine | JSON/src/components/ConfigRegexBuilder.tsx:312-318 | a new stop line is an unnamed full stop and nothing else changes |
| Order.UpdateAt | JSON/src/components/ConfigRegexBuilder.tsx:497-505 | the entry at the position is replaced and every other one kept (the separator editor updates a block the same way, SeparadoresBuilder.tsx lines 199-207) |
| Order.RemoveAt | JSON/src/components/ConfigRegexBuilder.tsx:507-514 | the entry at the position is removed and the others keep their order, and a position past the end removes nothing (the separator editor removes a block the same way, SeparadoresBuilder.tsx lines 209-216) |
| RegexConfig.Duplicate | JSON/src/components/ConfigRegexBuilder.tsx:516-524 | a copy of the chosen configuration is appended |
| RegexConfig.AddConfig | JSON/src/components/ConfigRegexBuilder.tsx:526-536 | an empty configuration is appended |
| RegexConfig.CleanConfigIdempotent | JSON/src/components/ConfigRegexBuilder.tsx:540-575 | cleaning a cleaned configuration changes nothing |
| RegexConfig.Export | JSON/src/components/ConfigRegexBuilder.tsx:538-603 | the exported list keeps what was exported before in front, what it appends is exactly the cleaned configurations whose start and some variation are not blank, and the configurations being edited are cleared |
| RegexConfig.ExportedComplete | JSON/src/components/ConfigRegexBuilder.tsx:578-580 | every exported configuration has a start and variations and is already clean, and there are no more of them than configurations edited |
| RegexConfig.ExportedExactly | JSON/src/components/ConfigRegexBuilder.tsx:578-580 | a configuration is exported exactly when it is the cleaned form of an edited configuration whose start and some variation are not blank |
| RegexConfig.ExportAppendsClean | JSON/src/components/ConfigRegexBuilder.tsx:578-584 | export appends at most one clean, complete configuration per configuration edited |
| RegexConfig.ValidFieldsExportAll | JSON/src/components/ConfigRegexBuilder.tsx:607-627 | when every configuration passes the validity check and its variations are clean, export appends all of them |
| RegexConfig.ExportsEvery | JSON/src/components/ConfigRegexBuilder.tsx:578-580 | under the same condition no configuration is filtered out |
| CommaLists.ItemsAreEntries | JSON/src/components/SeparadoresBuilder.tsx:58-63 | every item read from the words is non-blank, trimmed and without a comma |
| CommaLists.ItemsJoinRoundTrip | JSON/src/components/SeparadoresBuilder.tsx:66-69 | items joined with ", " read back as themselves |
| CommaLists.ItemsOfSeparatorsOnly | JSON/src/components/SeparadoresBuilder.tsx:58-63 | words made only of commas and whitespace give no items |
| SeparatorsBuilder.ItemsOf | JSON/src/components/SeparadoresBuilder.tsx:58-63 | a block's items are non-blank, trimmed and without commas |
| SeparatorsBuilder.RemoveItem | JSON/src/components/SeparadoresBuilder.tsx:66-70 | only the words change, and reading them back gives the old items without every copy of the one removed, in order |
| SeparatorsBuilder.RemoveItemIdempotent | JSON/src/components/SeparadoresBuilder.tsx:66-70 | removing an item twice is removing it once |
| SeparatorsBuilder.AddBlock | JSON/src/components/SeparadoresBuilder.tsx:218-227 | an empty block is appended |
| SeparatorsBuilder.Export | JSON/src/components/SeparadoresBuilder.tsx:229-274 | when a list is exported it is never empty |
| SeparatorsBuilder.ValidRulesExactly | JSON/src/components/SeparadoresBuilder.tsx:231-245 | exactly one rule per block with a column and words: every rule comes from such a block and every such block gives its rule |
| SeparatorsBuilder.Origin | JSON/src/components/SeparadoresBuilder.tsx:231-245 | every exported rule is the rule of a valid block, and the block it comes from can be named |
| SeparatorsBuilder.ExportIffValid | JSON/src/components/SeparadoresBuilder.tsx:229-278 | export produces a list exactly when `isValid` holds |
| SeparatorsBuilder.ExportedRulesClean | JSON/src/components/SeparadoresBuilder.tsx:231-245 | every exported rule has a trimmed non-blank column, a trimmed original value, and clean items |
| SeparatorsBuilder.CommaOnlyExportsNoItems | JSON/src/components/SeparadoresBuilder.tsx:231-245 | a block with a non-blank column whose words hold a comma and only commas and blanks is valid and is exported as one rule with its trimmed column and original value and no items |
| SeparatorsBuilder.MappedColumnsExactly | JSON/src/components/SeparadoresBuilder.tsx:166-197 | the offered columns are sorted, without repeats, and exactly the template columns of the mappings with data |
| SeparatorsBuilder.DataColumnsMembers | JSON/src/components/SeparadoresBuilder.tsx:168-194 | a column is collected exactly when some mapping for it has data |
| SeparatorsBuilder.EmptySourcesHaveNoData | JSON/src/components/SeparadoresBuilder.tsx:172-185 | a mapping to the empty marker or to an empty list has no data |
| JsonOutput.FinalConfig | JSON/src/components/JsonOutput.tsx:29-31 | the configuration is kept, and the regex configurations are added exactly when there are some |
| JsonOutput.Underscored | JSON/src/components/JsonOutput.tsx:71 | no blank is left, text without blanks is unchanged, and every character is '_' or one of the input's |
| JsonOutput.Sanitize | JSON/src/components/JsonOutput.tsx:69-72 | the sanitised name has only letters, digits, '_' and '-' |
| JsonOutput.SanitizeKeepsAllowed | JSON/src/components/JsonOutput.tsx:69-72 | a name already made of those characters is kept |
| JsonOutput.SanitizeIdempotent | JSON/src/components/JsonOutput.tsx:69-72 | sanitising twice is sanitising once |
| JsonOutput.FieldValue | JSON/src/components/JsonOutput.tsx:94-99 | what the field holds has only upper-case letters, digits, '_' and '-' |
| JsonOutput.UpperNameChars | JSON/src/components/JsonOutput.tsx:94-99 | upper-casing an allowed name gives a field value |
| JsonOutput.FieldValueIdempotent | JSON/src/components/JsonOutput.tsx:94-99 | re-typing the field's own value leaves it unchanged |
| JsonOutput.StripPrefix | JSON/src/components/JsonOutput.tsx:74-75 | a leading "config_", in any case, is removed, and anything else is kept |
| JsonOutput.StripSuffix | JSON/src/components/JsonOutput.tsx:76 | a trailing ".json", in any case, is removed, and anything else is kept |
| JsonOutput.ProcessedName | JSON/src/components/JsonOutput.tsx:69-76 | the processed name has only letters, digits, '_' and '-' |
| JsonOutput.SuffixNeverStripped | JSON/src/components/JsonOutput.tsx:69-76 | after sanitising there is no dot, so the ".json" removal never applies |
| JsonOutput.SanitizeDotted | JSON/src/components/JsonOutput.tsx:69-72 | sanitising "NAME.json" gives "NAMEjson" |
| JsonOutput.NoPrefixWithJson | JSON/src/components/JsonOutput.tsx:74-75 | appending "json" to a name without the prefix does not create one |
| JsonOutput.DottedSuffixKept | JSON/src/components/JsonOutput.tsx:66-92 | typing "NAME.json" downloads "config_NAMEJSON.json" |
| JsonOutput.ProcessedNameIsStripped | JSON/src/components/JsonOutput.tsx:69-76 | the processed name is the sanitised name without the prefix |
| JsonOutput.DownloadNameShape | JSON/src/components/JsonOutput.tsx:66-92 | the name is rejected exactly when nothing is left after the prefix is removed; otherwise it is "config_" + a non-empty upper-case name + ".json" |
| JsonOutput.NameCharsAllowed | JSON/src/components/JsonOutput.tsx:94-99 | a field value is allowed and already upper-case |
| JsonOutput.DownloadNameOfName | JSON/src/components/JsonOutput.tsx:66-92 | a non-empty field value without the prefix downloads as "config_NAME.json" |
| JsonOutput.StripTypedPrefix | JSON/src/components/JsonOutput.tsx:74-75 | a typed "config_" is removed |
| JsonOutput.PrefixedAllowed | JSON/src/components/JsonOutput.tsx:69-72 | the prefix is made of allowed characters |
| JsonOutput.DownloadNameOfPrefixedName | JSON/src/components/JsonOutput.tsx:66-92 | typing "config_NAME" downloads "config_NAME.json", the prefix not doubled |
| JsonOutput.SubmitAfterTyping | JSON/src/components/JsonOutput.tsx:66-99 | submitting what the field holds is rejected when nothing is left after the prefix, and otherwise downloads "config_" + the rest + ".json" |

## Left out

- File and library I/O is left out: glob, open, `json.load`/`dump`, `exit(1)`, logging, pandas `read_excel`/`ExcelWriter`, column widths, and loading or saving the NCM cache file. Sheets, text files, JSON documents and the cache are parameters and results.
- Loading the JSON files of a group and the per-group driver in `MOTOR/mescladorJSON.py` (`carregar_jsons_do_grupo`, `obter_nome_arquivo_venda`, `processar_grupo`, `processar_todos`) are left out. So are the older `carregar_jsons` and `gerar_json_final`. They chain the modelled stages around file reads and writes.
- The `main` functions of every script, the command line, and reading the template workbook in `tradutor_final.py` are I/O and are left out.
- `LuiHomeApp.py` (GUI, threads, port probing, build and HTTP server) and `MergeConfig.tsx` (form defaults that the merger never reads) are not part of this model.
- `JSON/src/config/requiredColumns.ts` is not part of this model. The required and immutable column lists are parameters, and the variation column is the constant "COR".
- VerticalText.ConvertSheet: the loops over workbooks and sheets in `fase1_conversao_bruta` are not modelled. When `ok` is false, the `except Exception` around the workbook ends it there: its later sheets get no file, and the partial file stays on disk without being counted in `total_txt`.
- Case mapping, whitespace and alphanumerics are ASCII only: whitespace is blank, tab, line feed, carriage return, vertical tab and form feed. Python's `str.strip()`/`split()` also treat the separators `\x1c`-`\x1f`, `\x85` and `\xa0` (and other Unicode spaces) as whitespace, and JavaScript's `\s` and `trim()` likewise; the model does not.
- Merger.FormatValue: Python `float()` is modelled as an optional sign, then digits with at most one '.'. Exponents, `inf`, `nan` and underscores count as unparseable. `:.2f` is modelled as exact rounding of the decimal, half to even, not binary floating-point rounding.
- BrazilianNumbers.FormatBR: it works on exact decimals, not binary floats, so `f"{frac:.2f}"` is rounded half to even on the exact value. The behaviours of `_formatar_numero_brasileiro` on such decimals are reproduced: a negative number is written as its truncated whole part with ",00", and a fraction that rounds up to 1.00 loses its carry ("0,00" for 0.999).
- BrazilianNumbers.FormatBR: like the price reader (`PriceNumber`, `ValidPrice`), it accepts only the decimal part of Python `float()` syntax: a sign, digits and at most one '.'. For "1e3" Python writes "1.000,00", and the model returns the text unchanged. For "inf", `int()` raises an OverflowError that the `except (ValueError, TypeError)` of `tradutor_final.py` does not catch; the model returns the text unchanged.
- Extractor.IdentifyRoleJustified: a role is one of the two the configuration tool writes, "custo" and "venda". `identificar_tipo_arquivo` returns whatever key of the configuration's `files` matches, so a configuration with a third entry (for example "promo") gives a role the model cannot represent.
- Merger.IdentifyFileRole: the same restriction to the roles "custo" and "venda" applies to the merger's `identificar_tipo_arquivo`.
- JSON numbers, booleans and mixed lists inside a record are not represented. A field value is text, a colour list, a text list or null.
- Merger.FormatField: a list value that is truthy is returned as it is. Python would format its `str()` text.
- Catalog.Shown: Python `str()` is modelled for the values a record holds: text as itself, None as "None", a text list as `['a', 'b']`, and a colour list as a list of `{'nome_cor': ..., 'preco': ...}` dicts, every item between single quotes. Python's `repr` of a list item differs in two ways that the model leaves out. It uses double quotes for an item that holds `'` and no `"` (`["D'AGUA"]`, where the model writes `['D'AGUA']`). It also escapes backslashes, the quote it uses and control characters (a line break inside an item is written `\n`); the model escapes nothing. This `str()` is used by `Translator.FixCell` for `str(v)`, by the price reader `PriceNumber` and by the separator's `str(valor).upper()`.
- pandas dtype coercion is reduced to a present cell or a missing cell (NaN).
- Translator.PriceCheckRaises: an empty list in CUSTO or PRECO1 is taken as not missing. `pd.isna([])` gives an empty array, which NumPy before 2.2 treats as false and later versions refuse with a `ValueError`; the model follows the older behaviour. The same holds for `Translator.ColumnRaises` in `_corrigir_valores`.
- `_linha_tem_preco_valido` in `tradutor_final.py` is never called and is left out.
- Translator.FilterInvalid: the log messages are left out. Each uncaught `TypeError` on the way is modelled as the result `None`: a missing or None description among the first ten rows (the `[:30]` slice at TRADUTOR/tradutor_final.py:363); a list description, which `unique()` and `isin` cannot hash (:376-382); and, once rows were removed, removed or kept descriptions that `sorted` cannot order, that is two or more of them with one not text (:403 and :409). The `ValueError` of `pd.isna` on a list of two or more items in CUSTO, or in PRECO1 after a valid CUSTO (:314 and :335), is modelled the same way, and so is the one in `_corrigir_valores` (:554 and :559, `Translator.CorrectValues`). pandas `unique()` is taken to keep NaN and None apart.
- XLSX `decode_cell`/`decode_range` parsing is left out. A sheet is a map from (row, column) to text, merge ranges are given as numbers, and a page's start cell is given as its row.
- JavaScript `Number()` on cell text is approximated by the same decimal reader.
- `Array.prototype.sort` compares UTF-16 code units; the model compares characters.
- FileReader, toasts, the clipboard, React state and effects, and `JSON.stringify` output are left out. A handler is a function from the old list to the new one.
- The `pageIndex` of a column mapping is not represented.
- `sourceColumn` values of `null` or `undefined` are not representable. A source is a column name or a list of names.
- ConfigRegexBuilder's `LinhaParadaCard` field handlers other than those in the table are left out; they only copy a field into the object.
- SeparadoresBuilder's `handleColunaChange`, `handleValorChange` and `handlePalavrasChange` are left out; they only copy a field into the block.
- `ui/input.tsx` (DOM upper-casing and caret handling) and `ConfigRegexBuilder.example.tsx` (a demo) are not part of this model.

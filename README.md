# Legend section partitioner and field-alias helpers of geoApi

This project is a Dafny model of two parts of the geoApi JavaScript library.

**The legend partitioner** (`src/legend.js`). A legend is an ordered list of
layers, each with a height. `makeLegend` spreads the layers over a number of
display sections by marking `splitBefore` on the layers that start a new
section. Between 2 and 12 layers (`TOO_MANY_LAYERS`) with more layers than
sections trigger an exhaustive search. `allComb(M, N)` lists every boolean
sequence of length M with N `true` entries, built by a dynamic-programming table
over Pascal's rule. Each candidate is one way to put `sections - 1` breaks into
the `layers.length - 1` gaps between layers. `packLayersIntoSections` scores a
candidate by the height of its tallest section and keeps the best one. Because
it compares with `<=`, the last best candidate wins. It then writes the winning
flags onto the layers. Guard paths return the list untouched with a section
count of 1.

**Field-alias helpers** (`src/layer/layerRec/attribFC.js`). These are small,
pure routines of the attribute-backed feature layer:
- `aliasedFieldNameDirect` gives the display name of an attribute: the first
  matching field's non-empty alias, or the attribute's own name.
- The `checkDateType` callback tells whether an attribute's field has the date
  type `esriFieldTypeDate`.
- `unAliasAttribs` re-keys an attribute dictionary from alias keys to field
  names.
- `getFormattedAttributes` builds data-grid columns from the fields that the
  first feature has attributes for.

Files:
- `wrappers.dfy` holds `Option`. `None` stands for JavaScript's `null`,
  `undefined` and `Number.MAX_VALUE` placeholders.
- `legend.dfy` is module `Legend`.
- `attrib_fc.dfy` is module `AttribFC`.

How the source's forms map into Dafny:
- The imperative code is written as methods with loop invariants. These are
  the `allComb` table fill, the candidate scan, the height accumulation, the
  in-place writes to the layer array, and the `forEach` that fills the
  `unAliasAttribs` dictionary.
- Each such method is proved equal to a specification function, and the
  properties are proved as lemmas about those functions.
- Layers are a Dafny `array` of `Layer` records. Heights are natural numbers.

## Model

| member | source | states |
|---|---|---|
| Legend.AllComb | src/legend.js:12-29 | The pruned table fill returns exactly C[M][N] of the unpruned recurrence. Skipping entries with too many `true` or `false` values never changes the answer. |
| Legend.CombRecurrence | src/legend.js:15-25 | C[0][0] is the single empty sequence. C[m][n] is C[m-1][n-1] with `true` appended (when n > 0), followed by C[m-1][n] with `false` appended (when m > n). |
| Legend.CombMembers | src/legend.js:4-12 | allComb(m, n) contains a sequence if and only if it has length m and exactly n `true` entries. |
| Legend.CombOrdered | src/legend.js:22-25 | Entries appear in strictly increasing order, reading from the last position backwards with `true` first. So no entry appears twice. |
| Legend.CombSize | src/legend.js:12-29 | The list has m!/(n!(m-n)!) entries, and at least one whenever n <= m. |
| Legend.SearchPathHasCandidates | src/legend.js:35-56 | When makeLegend reaches the search (1 <= sections < layers <= 12), allComb yields at least one candidate, so `bestPerm` is set before line 56 reads it. |
| Legend.SectionOfBound | src/legend.js:42-47 | `curSec` never exceeds the number of splits the candidate marks, so it stays inside `heights`. |
| Legend.FillSectionHeights | src/legend.js:41-48 | After `heights.fill(0)` and the layer loop, heights[k] is the total height of the layers the candidate puts in section k. |
| Legend.SectionHeightsSum | src/legend.js:41-48 | Whatever the candidate, the section totals add up to the total height of all layers: every layer is counted once. |
| Legend.MaxOfIsMax | src/legend.js:49 | `Math.max(...heights)` is an entry that no other entry exceeds. |
| Legend.CandidateCost | src/legend.js:41-49 | The shared `heights` array is left holding the candidate's section totals, and the score equals the tallest of them. |
| Legend.CostBounds | src/legend.js:41-49 | A candidate's score lies between the tallest single layer and the sum of all heights. |
| Legend.CostOfTwoSections | src/legend.js:41-49 | With two sections the score is the larger of the two section totals. |
| Legend.LastMinIndexIsLastMin | src/legend.js:50-53 | The `<=` update keeps a minimum of the scores seen so far, and every later score is strictly larger. |
| Legend.ScanCandidates | src/legend.js:36-54 | The `permutations.forEach` loop ends holding the last candidate of minimal score. `bestHeight` starts as MAX_VALUE and `bestPerm` as null. |
| Legend.BestSplits | src/legend.js:32-54 | The whole search returns the optimal candidate, with allComb(layers - 1, sections - 1) as the candidates. |
| Legend.OptimalSplitsIsCandidate | src/legend.js:32-35 | The chosen candidate is one of allComb's candidates and sets exactly sections - 1 breaks. |
| Legend.OptimalSplitsIsOptimal | src/legend.js:49-53 | No candidate has a shorter tallest section than the chosen one. |
| Legend.OptimalSplitsIsLastOfTies | src/legend.js:50-53 | Any other candidate with a score no larger than the chosen one's has a smaller index in allComb's list, and so comes before it in allComb order. |
| Legend.WriteSplits | src/legend.js:55-56 | Afterwards layer 0 has `splitBefore` false, layer i + 1 carries flag i of the candidate, and every other field of every layer is unchanged. |
| Legend.PackedLayers | src/legend.js:55-57 | After packing: the first flag is false, the other flags are the chosen candidate, exactly sections - 1 flags are set, and heights, the other layer data and the layer count are unchanged. |
| Legend.PackLayersIntoSections | src/legend.js:31-58 | Returns the same array, whose flags now carry the optimal candidate and whose other fields are unchanged. |
| Legend.MakeLegend | src/legend.js:60-70 | More than 12 layers, or no more layers than sections: the untouched list is returned with sectionsUsed 1. Otherwise the layers are packed and the array itself is returned. |
| Legend.CombAt | src/legend.js:15-25 | Entry i of C[m][n]: the first Binom(m-1, n-1) entries extend C[m-1][n-1] with `true` and the rest extend C[m-1][n] with `false`. CombAtLength and CombAtCount prove its length is m and it has n `true` entries. CombIndexFinds proves every such sequence occurs. |
| Legend.Comb | src/legend.js:15-28 | C[m][n] has Binom(m, n) entries. CombRecurrence, CombMembers, CombOrdered and CombSize characterise it. |
| Legend.SectionOf | src/legend.js:42-47 | The value of `curSec` when layer i is added: the number of splits marked before it, with `perm[i]` past the end counting as no split. SectionOfStep proves it follows the `++curSec` step, and SectionOfBound gives its upper bound. |
| Legend.SectionHeights | src/legend.js:41-48 | The `heights` array after one candidate: one total per section, `sections` entries in all. SectionHeightsSum proves the totals add up to the total height. |
| Legend.MaxOf | src/legend.js:49 | `Math.max(...heights)`. MaxOfIsMax proves it is an entry that bounds every entry. |
| Legend.Cost | src/legend.js:49 | `h` for a candidate: the tallest section total. CostBounds puts it between the tallest layer and the total height. |
| Legend.LastMinIndex | src/legend.js:50-53 | The index the `<=` update ends on after scanning n scores, which is always below n. LastMinIndexIsLastMin proves it is the last minimum. |
| Legend.Candidates | src/legend.js:32-35 | The candidate list `allComb(layers.length - 1, sections - 1)`. |
| Legend.OptimalIndex | src/legend.js:40-54 | The position of the winner in the candidate list, always inside the list. |
| Legend.OptimalSplits | src/legend.js:36-54 | The winning candidate has one flag per gap (`layers.length - 1` flags). OptimalSplitsIsCandidate, OptimalSplitsIsOptimal and OptimalSplitsIsLastOfTies characterise it. |
| Legend.ApplySplits | src/legend.js:55-56 | The layers with `splitBefore` of layer 0 cleared and that of layer i + 1 set to flag i. WriteSplits and PackedLayers prove what it keeps and what it sets. |
| Legend.CombOfTwoOne | src/legend.js:12-29 | allComb(2, 1) is [[false, true], [true, false]]. |
| Legend.CombOfThreeOne | src/legend.js:12-29 | allComb(3, 1) is [[false, false, true], [false, true, false], [true, false, false]]. |
| Legend.EqualLayersSplitInTheMiddle | src/legend.js:31-57 | Heights [10, 10, 10, 10] in two sections: the candidates score 30, 20 and 30, so the winning candidate is [false, true, false], which gives the `splitBefore` flags [false, false, true, false]. |
| Legend.TallLastLayerIsIsolated | src/legend.js:31-57 | Heights [1, 1, 1, 100] in two sections isolate the last layer: the winning candidate is [false, false, true], which gives the `splitBefore` flags [false, false, false, true]. |
| Legend.TieGoesToTheLaterCandidate | src/legend.js:50-53 | Heights [1, 1, 1] in two sections: both candidates score 2, and the later one, [true, false], wins. |
| AttribFC.FindNamedIsFirst | src/layer/layerRec/attribFC.js:192-194 | `find` by name finds nothing exactly when no field has the name. Otherwise it returns the first field that has it. |
| AttribFC.FindNamed | src/layer/layerRec/attribFC.js:192-194 | `fields.find` by name, as a position: a returned position is inside the list and carries the name. FindNamedIsFirst proves it is the first such position, and None exactly when there is none. |
| AttribFC.FieldNamed | src/layer/layerRec/attribFC.js:160-162 | The field `find` returns: any field it returns is in the list and has the name. |
| AttribFC.FieldNamedAt | src/layer/layerRec/attribFC.js:160-162 | When position i is the first with the name, `find` returns the field at i. |
| AttribFC.FieldNamedAbsent | src/layer/layerRec/attribFC.js:192-194 | `find` returns nothing exactly when no field in the list has the name. |
| AttribFC.UnAliased | src/layer/layerRec/attribFC.js:211-217 | The dictionary `newA` after the `forEach` has visited the fields in order. UnAliasedKeys, UnAliasedLastWins and NameKeyWins characterise it. |
| AttribFC.KeptFields | src/layer/layerRec/attribFC.js:120-125 | The `filter` on attribute keys of the first feature. KeptFieldsMembers, KeptFieldsAppend and KeptFieldsLength characterise it. |
| AttribFC.FormattedColumns | src/layer/layerRec/attribFC.js:120-129 | The `columns` array: one column per kept field, as many as the filter keeps. FormattedColumnsCover proves which columns it holds. |
| AttribFC.AliasedFieldNameDirect | src/layer/layerRec/attribFC.js:186-200 | The result is either the attribute name or the alias of a field with that name. |
| AttribFC.AliasedNameWithoutMatch | src/layer/layerRec/attribFC.js:188-199 | No fields, or no field with the name: the name is returned unchanged. |
| AttribFC.AliasedNameFirstMatch | src/layer/layerRec/attribFC.js:192-197 | Only the first field with the name counts. A present, non-empty alias is returned; otherwise the name is returned. |
| AttribFC.CheckDateType | src/layer/layerRec/attribFC.js:159-167 | A true result means some field with that name has the date type. |
| AttribFC.CheckDateTypeExactly | src/layer/layerRec/attribFC.js:160-165 | With a field of that name present, the check is true if and only if the first such field's type is `esriFieldTypeDate`. |
| AttribFC.CheckDateTypeWithoutMatch | src/layer/layerRec/attribFC.js:159-167 | No fields, or no field with the name: false. |
| AttribFC.ValueFor | src/layer/layerRec/attribFC.js:215 | The name key is used when present, even if the alias key is present too. Otherwise the alias key is used. The value is absent exactly when neither key is there. |
| AttribFC.UnAliasAttribs | src/layer/layerRec/attribFC.js:209-218 | The `forEach` over the fields builds the dictionary that assigns each field in turn. |
| AttribFC.UnAliasedKeys | src/layer/layerRec/attribFC.js:211-217 | The result's keys are exactly the field names: every field gets a key, even one without a value, and no other key appears. |
| AttribFC.UnAliasedLastWins | src/layer/layerRec/attribFC.js:212-216 | For a repeated field name, the last field with that name decides the value. |
| AttribFC.NameKeyWins | src/layer/layerRec/attribFC.js:215 | When both the name and the alias are keys of the input, the value stored is the one under the name. |
| AttribFC.AliasKeyIsRenamed | src/layer/layerRec/attribFC.js:209-218 | {"POP": 5} with fields population (alias POP) and area (no alias) gives {"population": 5, "area": undefined}. |
| AttribFC.ColumnOf | src/layer/layerRec/attribFC.js:126-129 | A column's data is the field name. Its title is the alias when that is truthy, and the name otherwise. |
| AttribFC.KeptFieldsMembers | src/layer/layerRec/attribFC.js:120-125 | The filter keeps exactly the fields whose name is an attribute key of the first feature. |
| AttribFC.KeptFieldsAppend | src/layer/layerRec/attribFC.js:120-125 | The filter keeps the order of the fields: filtering a concatenation concatenates the filtered parts. |
| AttribFC.KeptFieldsLength | src/layer/layerRec/attribFC.js:120-125 | The filter never yields more fields than it was given. |
| AttribFC.FormattedColumnsCover | src/layer/layerRec/attribFC.js:120-129 | Every column shows an attribute key and comes from a field. Every field whose name is a key yields a column. |
| AttribFC.ColumnTitleIsAliasedName | src/layer/layerRec/attribFC.js:126-129 | For the first field of a given name, the column title equals what aliasedFieldNameDirect gives for that name. |

## Left out

- Scope: the other layerRec classes and the server and layer plumbing are not part of this model.
- Asynchronous accessors of attribFC.js: `getAttribs`, `getLayerData`, `getSymbology`, `getFeatureName` and the constructor are left out. So are the promise wrapping, caching and `catch` handling of `getFormattedAttributes`, `checkDateType` and `aliasedFieldName`. They are thin wrappers over an external layer package. Only their synchronous bodies are modelled, and the awaited layer data becomes a parameter.
- The other fields of the `getFormattedAttributes` result (`rows`, `fields`, `oidField`, `oidIndex`, `renderer`) are passed through untouched and are not modelled. The attributes of the first feature are a parameter, because the source assumes at least one feature.
- JavaScript object quirks:
  - Attribute dictionaries are `map<string, V>`, and `hasOwnProperty` is key membership.
  - An absent alias is `None`, and `attribs[undefined]` is taken to find nothing. In JavaScript it would read a key literally named "undefined".
  - Properties inherited through the prototype chain are not modelled.
- Heights are natural numbers. JavaScript numbers are floating point, and fractional or negative heights are not modelled.
- Layer objects are records held in an array. The source writes `splitBefore` onto caller-owned objects that may be shared elsewhere. That aliasing is not modelled.
- Legend.MakeLegend excludes zero available sections with 1 to 12 layers. The source calls `allComb(L - 1, -1)` there, which returns `undefined`, and `permutations.forEach` at line 40 then throws. With zero sections the guard paths still return normally: an empty list at line 64, and more than 12 layers at line 61. The model covers both of those. Negative section counts are outside the model, because `sectionsAvailable` is a natural number; the source would return the untouched list for them when there are more than 12 layers.
- Legend.MakeLegend: on the search path the code returns the bare layer array, not a record with `sectionsUsed`. The model follows the code.
- Legend.MakeLegend: on the guard paths the code leaves existing `splitBefore` flags as they were, rather than clearing them. The model follows the code.
- Legend.BestSplits and Legend.ScanCandidates are one stretch of `packLayersIntoSections` (lines 32-54), split in two at the call to `allComb`. Legend.CandidateCost and Legend.FillSectionHeights are the loop body of lines 41-49.
- The commented-out `allocateLayersToSections` call and the UI that reads `splitBefore` are outside the code.

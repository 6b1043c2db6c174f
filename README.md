# Course-cycle sections of the law-degree progress page

The page's data is a table of the courses (`materias`) of a law degree. Each course record
carries its name, its weekly and total hours, the curriculum cycle it belongs
to (`ciclo`: `CBC`, `CPC` or `CPO`), optional numbers `min` and `max` and an
optional specialization track (`orientacion`, one of eight). The `App`
component derives one value from the table: `sections`, computed as
`materias.map(({ ciclo }) => ciclo).filter((value, index, self) => self.indexOf(value) === index)`,
which is the list of distinct cycles in the order in which they first appear.
The page then renders one list item per section, keyed by the cycle.

This project models that derivation:

- `wrappers.dfy` — `Option`, standing for the TypeScript `null | X` fields.
- `js_array.dfy` (module `JsArray`) — the JavaScript array operations used:
  `indexOf` (first index or -1), `map`, and `filter`, whose callback receives
  the value, its index and the whole array.
- `app.dfy` (module `App`) — the `Orientacion`, `Ciclo` and `Materia` types; the
  filter callback `IsFirstOccurrence`; `Dedup`, which is exactly that filter;
  `Ciclos`, the `map` step; `Sections`, their composition; and the lemmas
  about them. An independent left-to-right definition, `KeepUnseen` (append a
  value only when it has not been seen), is proved equal to `Dedup`.

The properties proved are the ones the derivation is relied on for: no cycle
repeats (the rendered list items use the cycle as their React key, so the
keys are distinct), no cycle is lost or invented, cycles keep their
first-seen order, the result is a subsequence of the cycle column, at most
three sections exist, an empty table gives no sections, and deduplicating a
second time changes nothing.

## Model

The types are not members and carry no contract, so they have no row:
`App.Orientacion` (eight constructors) models the union of eight track names
with `null` excluded at src/App.tsx:4-11, `App.Ciclo` models
`'CBC' | 'CPC' | 'CPO'` at src/App.tsx:18, and `App.Materia` models the record
at src/App.tsx:14-22, with `null | number` as `Option<int>` and the `null`
member of `Orientacion` (src/App.tsx:12) as `Option<Orientacion>`.

| member | source | states |
|---|---|---|
| `JsArray.IndexOf` | src/App.tsx:27 | `indexOf` returns -1 exactly when the value is absent; otherwise an in-range index holding the value with no earlier occurrence |
| `JsArray.IndexOfAtPosition` | src/App.tsx:27 | for every position of the array the callback inspects, `indexOf` of its value is not -1, is at most that position, and holds the same value |
| `JsArray.IndexOfSnoc` | src/App.tsx:27 | appending an element leaves the first index of every present value unchanged and finds an absent value only if it is the appended one, at the last position |
| `JsArray.Map` | src/App.tsx:27 | `map` keeps the length and puts the image of each element at the same index |
| `JsArray.MapSnoc` | src/App.tsx:27 | mapping an array with one more element gives the old result plus the image of that element |
| `JsArray.Filter` | src/App.tsx:27 | `filter` never yields more elements than the array has |
| `JsArray.FilterFrom` | src/App.tsx:27 | the part of the filter result from index `i` on has at most `length - i` elements |
| `JsArray.FilterFromMembers` | src/App.tsx:27 | a value is in the filter result exactly when it stands at an index whose callback, given value, index and whole array, answers true |
| `JsArray.FilterFromSnoc` | src/App.tsx:27 | if the callback answers the same at the old indices of a longer array, filtering the longer array adds only the new element, and only when it is kept |
| `JsArray.FilterSnoc` | src/App.tsx:27 | the same fact for the whole filter |
| `App.Label` | src/App.tsx:18 | each cycle stands for one of the three literals `'CBC'`, `'CPC'`, `'CPO'` of the `ciclo` type |
| `App.LabelInjective` | src/App.tsx:18 | the three cycle literals are pairwise distinct, so comparing cycles agrees with comparing their strings |
| `App.IsFirstOccurrence` | src/App.tsx:27 | the callback `self.indexOf(value) === index`, defined as `IndexOf(self, value) == index`, answers true exactly when `index` is in range, holds `value`, and no earlier index holds `value` |
| `App.Dedup` | src/App.tsx:27 | the `indexOf` filter never yields more elements than it is given |
| `App.Ciclos` | src/App.tsx:27 | the step `materias.map(({ ciclo }) => ciclo)`: the cycle column has one entry per course, and entry `k` is the `ciclo` of course `k` (through `Map`'s pointwise ensures); `CiclosMembers` states its membership |
| `App.Sections` | src/App.tsx:27 | `sections` has no repeated cycle; a cycle is in it exactly when some course has that cycle; its cycles are ordered by first occurrence in the cycle column; it is a subsequence of that column; its length is at most the number of courses and at most 3; an empty table gives no sections |
| `App.CiclosMembers` | src/App.tsx:27 | a cycle occurs in the mapped cycle column exactly when some course record has it |
| `App.DedupSnoc` | src/App.tsx:27 | deduplicating an array with one more element gives the old result, plus that element when it was not already present |
| `App.DedupEmpty` | src/App.tsx:27 | an empty array gives an empty result |
| `App.DedupMembers` | src/App.tsx:27 | a value is in the result exactly when it is in the input |
| `App.DedupNoDuplicates` | src/App.tsx:27 | no two positions of the result hold the same value |
| `App.DedupFirstSeenOrder` | src/App.tsx:27 | for any two positions `i < j` of the result, the first occurrence in the input of the value at `i` comes strictly before that of the value at `j` |
| `App.DedupSubsequence` | src/App.tsx:27 | the result is the input with some elements deleted |
| `App.DedupOfDistinct` | src/App.tsx:27 | an input without repeated values comes out unchanged |
| `App.DedupIdempotent` | src/App.tsx:27 | applying the derivation to its own result changes nothing |
| `App.KeepUnseenFrom` | src/App.tsx:27 | continuing the left-to-right scan from the deduplicated prefix gives the deduplication of the whole array |
| `App.DedupIsKeepUnseen` | src/App.tsx:27 | the `indexOf` filter equals the independent scan that appends each value the first time it is seen |
| `App.DedupMap` | src/App.tsx:27 | for an injective function, deduplicating the mapped array equals mapping the deduplicated array |
| `App.SectionsAsStrings` | src/App.tsx:18-27 | running the derivation on the cycles' string literals, as JavaScript compares them, yields the literals of `Sections` in the same order |
| `App.DistinctCardinality` | src/App.tsx:18 | helper of the three-cycle bound: a sequence without repeated values has as many distinct elements as positions |
| `App.DistinctCiclosAtMostThree` | src/App.tsx:18 | a sequence of pairwise distinct cycles has at most three elements |

## Left out

- Rendering: the `<div>`, the "Hello world" text and the `<ul>`/`<li>` list (src/App.tsx:28-35) are presentation with no logic beyond iterating over `sections`.
- Loading the table: the JSON import and the `as Materia[]` cast (src/App.tsx:2 and 24) do no validation, and `carrera.json` is not part of this model; the table is an arbitrary `seq<Materia>`.
- The model trusts `carrera.json` to match the `Materia` type: the cast at src/App.tsx:24 checks nothing, and a record whose `ciclo` is not one of the three literals has no counterpart in `Ciclo`. The three-valued `Ciclo`, and with it the bound of at most three sections, rely on that trust.
- The numeric fields `horas_semana`, `horas_totales`, `min` and `max` are JavaScript numbers (IEEE doubles); they are modelled as `int` because nothing in the source reads them, and no property is stated about them or about `materia` and `orientacion`.
- src/App.tsx has no selection state, credit bounds, progress percentage or cycle summary labels, so none is modelled.
- The names of the eight specialization tracks are modelled as constructor names only, not as their string literals, since nothing compares them.

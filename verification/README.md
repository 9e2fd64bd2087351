# Veterinary dose calculator — Dafny model of the dose service

The backend of the veterinary dose calculator holds a reference table of drug
records. Each record gives a drug name, a species, a dose rate in mg per kg and
a concentration in mg per ml. The table is loaded once when the service starts.
After that, `DoseService` answers two read-only queries over it:

- `getDrugsAndSpecies` lists the distinct drug names and the distinct species,
  each sorted ascending (`[...new Set(names)].sort()`).
- `calculateDose` takes a species, a drug and a weight. It rejects a weight
  that is not positive (HTTP 400, "Weight must be a positive number"). It then
  finds the first record whose drug name and species both equal the request
  exactly. If there is none, it fails with HTTP 404 and the message
  `Drug "<drug>" not found for species "<species>"`. Otherwise it returns the
  record, the weight, the total dose (rate × weight) and the volume to draw up
  (total ÷ concentration). Both numbers are rounded to two decimals with
  `Math.round(x * 100) / 100`.

This project models that service in Dafny and proves what it promises.

Layout:

- `interfaces.dfy` (module `Interfaces`): the record shapes — a drug record,
  the request, the calculation result, the catalogue, and the HTTP error with
  its status (400 or 404).
- `strings.dfy` (module `Strings`): the lexicographic order used by the
  default `sort()`, with its order laws, and substring containment.
- `sorted_sets.dfy` (module `SortedSets`): `[...new Set(xs)].sort()`.
  `Dedupe` models the `Set` spread and `Sort` models `sort()` as insertion
  sort. `SortedDistinct` combines them.
- `rounding.dfy` (module `Rounding`): `Round2(x) = floor(100·x + 1/2) / 100`,
  which is `Math.round(x * 100) / 100` on exact reals.
- `dose_service.dfy` (module `Dose`): the first-match lookup `FindDrug`, the
  calculation `DoseFor`, the catalogue `CatalogueOf`, and the class
  `DoseService`. The class has the `drugData` field, a constant set in its
  constructor; its two methods return exactly what those functions give.
- `dose_examples.dfy` (module `DoseExamples`): worked cases.

Three behaviours of the code that the model keeps:

- The volume is rounded from the unrounded total
  (`backend/src/dose/dose.service.ts:72`), not from the rounded
  `total_dose_mg`. The two can differ; `DoseExamples.VolumeUsesUnroundedTotal`
  exhibits a case.
- `Math.round` rounds halves toward +∞, not away from zero. `Round2` does the
  same, so `Round2(-0.005) == 0.0`.
- Duplicate (drug, species) rows are neither rejected nor merged. The first
  row in table order wins.

Neither query changes the table: `drugData` is a constant of the object,
fixed once the service is constructed, and neither `DoseService` method has a
`modifies` clause. Each method's `ensures` equates its result with a function
of `drugData` and the request. So two calls with the same request give the
same result or the same error.

## Model

| member | source | states |
|---|---|---|
| `Dose.DoseService.constructor` | backend/src/dose/dose.service.ts:10-15 | the service holds exactly the loaded table, and it is a table a calculation can run on |
| `Dose.DoseService.GetDrugsAndSpecies` | backend/src/dose/dose.service.ts:45-53 | returns the catalogue of the table, both lists strictly ascending; changes nothing |
| `Dose.DoseService.CalculateDose` | backend/src/dose/dose.service.ts:55-85 | returns exactly `DoseFor(drugData, dto)`, succeeding iff the weight is positive and some record matches; changes nothing, so repeated calls agree |
| `Dose.CatalogueOf` | backend/src/dose/dose.service.ts:45-53 | drugs and species are each strictly ascending; a name is listed iff some record has it |
| `Dose.CatalogueDistinct` | backend/src/dose/dose.service.ts:46-47 | neither catalogue list has duplicates |
| `Dose.CatalogueDependsOnlyOnNames` | backend/src/dose/dose.service.ts:46-47 | two tables with the same drug names and species have the same catalogue, whatever the order or repetition of their rows |
| `Dose.DrugNames` | backend/src/dose/dose.service.ts:46 | the `map` to drug names: one name per record, in table order |
| `Dose.SpeciesNames` | backend/src/dose/dose.service.ts:47 | the `map` to species: one species per record, in table order |
| `Dose.FindDrug` | backend/src/dose/dose.service.ts:64 | `find` is empty iff no record matches drug and species exactly; otherwise it is the record at the first matching index |
| `Dose.FindDrugFirstMatchWins` | backend/src/dose/dose.service.ts:64 | rows appended after a table that already has a match do not change what `find` returns |
| `Dose.DoseFor` | backend/src/dose/dose.service.ts:55-85 | weight ≤ 0 gives the 400 error, even when the pair is absent; a positive weight with no match gives the 404 error naming drug and species; success iff weight > 0 and a match exists; on success: the first matching record, the input weight, total = Round2(rate·weight), volume = Round2(rate·weight / concentration) |
| `Dose.DoseForErrors` | backend/src/dose/dose.service.ts:59-68 | every failure is either status 400 with the weight message for a non-positive weight, or status 404 with a message containing both the drug and the species |
| `Dose.NotFoundMessageNames` | backend/src/dose/dose.service.ts:67 | the not-found message contains the requested drug and the requested species as substrings |
| `Dose.DoseForRounding` | backend/src/dose/dose.service.ts:71-83 | on success, both outputs are whole hundredths, within 0.005 of the exact total and exact volume, unchanged by rounding again, and non-negative for a positive rate and concentration |
| `Dose.DoseForIgnoresLaterDuplicates` | backend/src/dose/dose.service.ts:64-81 | appending rows to a table that already has a match leaves the whole calculation unchanged |
| `SortedSets.Dedupe` | backend/src/dose/dose.service.ts:46-47 | the `Set` spread: no duplicates, exactly the input's elements, no longer than the input |
| `SortedSets.InsertPermutes` | backend/src/dose/dose.service.ts:46-47 | one insertion step adds exactly the inserted element to the multiset |
| `SortedSets.InsertAscending` | backend/src/dose/dose.service.ts:46-47 | one insertion step keeps an ascending list ascending |
| `SortedSets.InsertStrictlyAscending` | backend/src/dose/dose.service.ts:46-47 | inserting a new element keeps a strictly ascending list strictly ascending |
| `SortedSets.SortPermutes` | backend/src/dose/dose.service.ts:46-47 | `sort()` returns a permutation of its input |
| `SortedSets.SortAscending` | backend/src/dose/dose.service.ts:46-47 | `sort()` returns an ascending list |
| `SortedSets.SortDistinctStrictlyAscending` | backend/src/dose/dose.service.ts:46-47 | sorting a duplicate-free list gives a strictly ascending one |
| `SortedSets.StrictlyAscendingUnique` | backend/src/dose/dose.service.ts:46-47 | two strictly ascending lists with the same elements are equal |
| `SortedSets.SortedDistinct` | backend/src/dose/dose.service.ts:46-47 | `[...new Set(xs)].sort()` is strictly ascending and has exactly the elements of `xs` |
| `SortedSets.SortedDistinctCanonical` | backend/src/dose/dose.service.ts:46-47 | any strictly ascending list with the elements of `xs` equals `[...new Set(xs)].sort()` |
| `Strings.LessIrreflexive` | backend/src/dose/dose.service.ts:46-47 | no string sorts before itself |
| `Strings.LessTransitive` | backend/src/dose/dose.service.ts:46-47 | the sort order is transitive |
| `Strings.LessTotal` | backend/src/dose/dose.service.ts:46-47 | of two different strings, one sorts before the other |
| `Strings.LessAsymmetric` | backend/src/dose/dose.service.ts:46-47 | two strings never sort before each other |
| `Strings.LessEqTransitive` | backend/src/dose/dose.service.ts:46-47 | the non-strict sort order is transitive |
| `Rounding.Round2` | backend/src/dose/dose.service.ts:82-83 | the result is a whole number of hundredths in (x − 0.005, x + 0.005], and non-negative for non-negative x |
| `Rounding.Round2OfCents` | backend/src/dose/dose.service.ts:82-83 | a value that is already whole hundredths is unchanged |
| `Rounding.Round2Idempotent` | backend/src/dose/dose.service.ts:82-83 | rounding twice equals rounding once |
| `Rounding.Round2Unique` | backend/src/dose/dose.service.ts:82-83 | the rounded value is the only whole number of hundredths in (x − 0.005, x + 0.005] |
| `Rounding.Round2Monotone` | backend/src/dose/dose.service.ts:82-83 | rounding preserves order |
| `DoseExamples.AmoxicillinForDog` | backend/src/dose/dose.service.ts:70-84 | 10 mg/kg at 50 mg/ml for a 20 kg dog gives 200 mg and 4 ml, with the record and the weight echoed |
| `DoseExamples.AmoxicillinForCatIsNotFound` | backend/src/dose/dose.service.ts:64-68 | a table with Amoxicillin only for dogs gives 404 for a cat |
| `DoseExamples.NonPositiveWeightWinsOverNotFound` | backend/src/dose/dose.service.ts:59-61 | weights 0 and −5 give the 400 error even though the pair is absent |
| `DoseExamples.RoundsTotalDoseToHundredths` | backend/src/dose/dose.service.ts:71-82 | 3.333 mg/kg × 7 kg = 23.331 mg is reported as 23.33 mg |
| `DoseExamples.VolumeUsesUnroundedTotal` | backend/src/dose/dose.service.ts:71-83 | a case where the reported volume (0.14 ml) differs from rounding the rounded total over the concentration (0.1 ml) |

## Left out

- Loading the table (`loadDrugData`, `onModuleInit`): CSV streaming through
  `fs` and the `csv-parser` library, asynchronous. The loaded table is a
  constructor argument. The `Number.parseFloat` NaN results for malformed
  fields are not modelled.
- IEEE-754 doubles: numbers are exact reals. Float artefacts are not
  reproduced (for example `1.005 * 100` not being exactly 100.5). Neither are
  NaN or infinite weights, rates and concentrations.
- Dose.DoseFor: requires every concentration in the table to be nonzero.
  Dividing by a zero concentration gives Infinity or NaN in JavaScript, which
  exact reals cannot represent.
- Dose.DoseService.constructor: requires the same nonzero-concentration
  table. The class keeps it as its invariant `Valid()`, and
  `Dose.DoseService.CalculateDose` requires it.
- Strings.Less: compares Unicode code points. JavaScript's default `sort()`
  compares UTF-16 code units. The two orders differ only between characters
  above U+FFFF and characters in U+E000–U+FFFF.
- SortedSets.Dedupe: does not state that the first-occurrence order of a
  JavaScript `Set` is kept. The result is sorted next, so that order is never
  observable.
- The queries are `async` and return promises. They are modelled as
  synchronous calls; nothing in them awaits.
- The NestJS controller (`dose.controller.ts`, which re-throws the two HTTP
  errors and maps anything else to a 500) is not part of this model. Neither
  are the module wiring (`dose.module.ts`, `app.module.ts`), the bootstrap
  and CORS (`main.ts`), or the request validation decorators
  (`dto/calculate-dose.dto.ts`).
- The React frontend (`App.tsx`) and its HTTP client (`services/api.ts`) are
  not part of this model.
